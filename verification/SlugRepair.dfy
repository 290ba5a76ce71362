/**
 The migration that renames unsafe property slugs, keeps the old URLs working through
 redirects, and can be rolled back.
 */
module SlugRepair {
  import opened Common
  import opened RedirectGraph
  import opened Redirects
  import Slugs
  import Strings

  type Slug = string

  datatype SlugRow = SlugRow(id: nat, slug: Slug)
  datatype Repair = Repair(id: nat, from: Slug, to: Slug)
  datatype Config = Config(propertyId: Option<nat>, path: Option<Path>, revision: nat)
  datatype Db = Db(properties: map<nat, Slug>, configs: map<nat, Config>, redirects: Table)

  const SANITISE := "slug-sanitise"

  function Url(slug: Slug): (p: Path)
    ensures |p| == 1 + |slug| && p[1..] == slug
  {
    "/" + slug
  }

  /** Undoes Url; anything without a leading slash stays as it is. */
  function Unslash(p: Path): Slug {
    if p != "" && p[0] == '/' then p[1..] else p
  }

  predicate Ascii(s: string) {
    forall i | 0 <= i < |s| :: ' ' <= s[i] <= '~'
  }

  // ----- Planning -----

  predicate Skipped(slug: Slug, used: set<Slug>) {
    slug == "" || Slugs.SafeSlug(slug) || Slugs.NormalizeSeoSlug(slug) == "" || Slugs.NormalizeSeoSlug(slug) in used
  }

  function Plan(rows: seq<SlugRow>, used: set<Slug>): seq<Repair>
    decreases |rows|
  {
    if rows == [] then []
    else
      var to := Slugs.NormalizeSeoSlug(rows[0].slug);
      if Skipped(rows[0].slug, used) then Plan(rows[1..], used)
      else [Repair(rows[0].id, rows[0].slug, to)] + Plan(rows[1..], used + {to})
  }

  method PlanSlugRepairs(rows: seq<SlugRow>, taken: set<Slug>) returns (repairs: seq<Repair>)
    ensures repairs == Plan(rows, taken)
  {
    var used := taken;
    repairs := [];
    for i := 0 to |rows|
      invariant Plan(rows, taken) == repairs + Plan(rows[i..], used)
    {
      var row := rows[i];
      assert rows[i..][1..] == rows[i + 1..];
      if row.slug == "" || Slugs.SafeSlug(row.slug) {
        continue;
      }
      var to := Slugs.NormalizeSeoSlug(row.slug);
      if to == "" || to in used {
        continue;
      }
      used := used + {to};
      repairs := repairs + [Repair(row.id, row.slug, to)];
    }
  }

  ghost predicate SoundRepair(r: Repair, rows: seq<SlugRow>, used: set<Slug>) {
    && SlugRow(r.id, r.from) in rows
    && Slugs.Sanitises(r.from, r.to)
    && r.to !in used
  }

  /** Only unsafe slugs are renamed, to safe, pairwise distinct slugs that nobody uses. */
  lemma {:induction false} PlanIsSound(rows: seq<SlugRow>, used: set<Slug>, repairs: seq<Repair>)
    requires repairs == Plan(rows, used)
    ensures forall i | 0 <= i < |repairs| :: SoundRepair(repairs[i], rows, used)
    ensures forall i, j | 0 <= i < j < |repairs| :: repairs[i].to != repairs[j].to
    decreases |rows|
  {
    if rows != [] {
      Slugs.SlugsAreSafe(rows[0].slug);
      if Skipped(rows[0].slug, used) {
        PlanIsSound(rows[1..], used, repairs);
        forall i | 0 <= i < |repairs| ensures SoundRepair(repairs[i], rows, used) {
          assert SoundRepair(repairs[i], rows[1..], used);
        }
      } else {
        var used' := used + {repairs[0].to};
        PlanIsSound(rows[1..], used', repairs[1..]);
        forall i | 0 < i < |repairs|
          ensures SoundRepair(repairs[i], rows, used) && repairs[i].to != repairs[0].to
        {
          assert SoundRepair(repairs[1..][i - 1], rows[1..], used');
        }
        forall i, j | 0 < i < j < |repairs| ensures repairs[i].to != repairs[j].to {
          assert repairs[1..][i - 1].to != repairs[1..][j - 1].to;
        }
      }
    }
  }

  ghost predicate PlannedOrBlocked(row: SlugRow, repairs: seq<Repair>, used: set<Slug>) {
    var to := Slugs.NormalizeSeoSlug(row.slug);
    Skipped(row.slug, used) || (exists i | 0 <= i < |repairs| :: repairs[i].to == to)
  }

  lemma PlannedLater(row: SlugRow, repairs: seq<Repair>, used: set<Slug>, to: Slug)
    requires repairs != [] && repairs[0].to == to && PlannedOrBlocked(row, repairs[1..], used + {to})
    ensures PlannedOrBlocked(row, repairs, used)
  {
    var wanted := Slugs.NormalizeSeoSlug(row.slug);
    if i :| 0 <= i < |repairs[1..]| && repairs[1..][i].to == wanted {
      assert repairs[i + 1].to == wanted;
    }
  }

  /** An unsafe slug is passed over only if its safe form is empty or already spoken for. */
  lemma {:induction false} PlanIsComplete(rows: seq<SlugRow>, used: set<Slug>, k: nat)
    requires k < |rows|
    ensures PlannedOrBlocked(rows[k], Plan(rows, used), used)
    decreases |rows|
  {
    if k == 0 {
      FirstPlanned(rows, used);
    } else {
      var skipped := Skipped(rows[0].slug, used);
      var to := Slugs.NormalizeSeoSlug(rows[0].slug);
      PlanIsComplete(rows[1..], if skipped then used else used + {to}, k - 1);
      assert rows[1..][k - 1] == rows[k];
      if !skipped {
        PlannedLater(rows[k], Plan(rows, used), used, to);
      }
    }
  }

  lemma FirstPlanned(rows: seq<SlugRow>, used: set<Slug>)
    requires rows != []
    ensures PlannedOrBlocked(rows[0], Plan(rows, used), used)
  {
    if !Skipped(rows[0].slug, used) {
      assert Plan(rows, used)[0].to == Slugs.NormalizeSeoSlug(rows[0].slug);
    }
  }

  /** What the two directions of the migration rely on. */
  ghost predicate Renaming(repairs: seq<Repair>) {
    && (forall i, j | 0 <= i < j < |repairs| :: repairs[i].from != repairs[j].from && repairs[i].to != repairs[j].to)
    && (forall i, j | 0 <= i < |repairs| && 0 <= j < |repairs| :: repairs[i].from != repairs[j].to)
  }

  /** A plan is always a renaming: old and new slugs are distinct and never mixed up. */
  lemma PlanIsRenaming(rows: seq<SlugRow>, used: set<Slug>)
    ensures Renaming(Plan(rows, used))
  {
    var repairs := Plan(rows, used);
    PlanIsSound(rows, used, repairs);
    forall i, j | 0 <= i < |repairs| && 0 <= j < |repairs|
      ensures repairs[i].from != repairs[j].to
      ensures i < j ==> repairs[i].from != repairs[j].from
    {
      assert SoundRepair(repairs[i], rows, used) && SoundRepair(repairs[j], rows, used);
    }
  }

  // ----- Up -----

  function RepairRedirects(t: Table, oldPath: Path, newPath: Path): Table {
    var repointed := map p | p in t ::
      if t[p].dest == oldPath && p != newPath then t[p].(dest := newPath) else t[p];
    repointed[oldPath :=
      if oldPath in repointed then repointed[oldPath].(dest := newPath, active := true)
      else Row(newPath, SANITISE, true)]
  }

  function RepairConfig(c: Config, r: Repair): Config {
    if c.propertyId == Some(r.id) && c.path == Some(Url(r.from))
    then c.(path := Some(Url(r.to)), revision := c.revision + 1) else c
  }

  function UpOne(db: Db, r: Repair): Db {
    Db(if r.id in db.properties then db.properties[r.id := r.to] else db.properties,
       map k | k in db.configs :: RepairConfig(db.configs[k], r),
       if Ascii(r.from) then RepairRedirects(db.redirects, Url(r.from), Url(r.to)) else db.redirects)
  }

  function Up(db: Db, repairs: seq<Repair>): Db
    decreases |repairs|
  {
    if repairs == [] then db else Up(UpOne(db, repairs[0]), repairs[1..])
  }

  // ----- Acyclicity -----

  /** A repair adds the edge from the old URL to the new one; whatever else it repoints is a shortcut. */
  lemma RepairAddsEdge(t: Table, o: Path, n: Path)
    requires o != n
    ensures Acyclic(Edges(RepairRedirects(t, o, n))) <==> Acyclic(Edges(t)[o := n])
  {
    ShortcutsKeepCycles(Edges(t)[o := n], Edges(RepairRedirects(t, o, n)));
  }

  /**
   One repair keeps the table acyclic exactly when the new URL does not already lead to the
   old one.  The migration never checks this.
   */
  lemma RepairAcyclicIff(t: Table, o: Path, n: Path)
    requires Acyclic(Edges(t)) && o != n
    ensures Acyclic(Edges(RepairRedirects(t, o, n))) <==> !Reaches(Edges(t), n, o)
  {
    RepairAddsEdge(t, o, n);
    NewEdgeAcyclicIff(Edges(t), o, n);
  }

  // ----- Down -----

  /** An old URL and the URL it was repaired to, as the sanitising rows record them. */
  datatype Link = Link(source: Path, dest: Path)

  function DownRow(row: Row, p: Path, link: Link): Row {
    if row.dest == link.dest && row.reason != SANITISE && p != link.source then row.(dest := link.source) else row
  }

  function DownOne(db: Db, link: Link): Db {
    Db(map id | id in db.properties ::
         if db.properties[id] == Unslash(link.dest) then Unslash(link.source) else db.properties[id],
       map k | k in db.configs ::
         if db.configs[k].path == Some(link.dest) then db.configs[k].(path := Some(link.source)) else db.configs[k],
       map p | p in db.redirects :: DownRow(db.redirects[p], p, link))
  }

  function DownAll(db: Db, links: seq<Link>): Db
    decreases |links|
  {
    if links == [] then db else DownAll(DownOne(db, links[0]), links[1..])
  }

  function DropSanitised(t: Table): Table {
    map p | p in t && t[p].reason != SANITISE :: t[p]
  }

  function Down(db: Db, links: seq<Link>): Db {
    var restored := DownAll(db, links);
    restored.(redirects := DropSanitised(restored.redirects))
  }

  /** The rows the roll-back reads first, in any order. */
  ghost predicate ListsSanitised(t: Table, links: seq<Link>) {
    && (forall i | 0 <= i < |links| :: links[i].source in t && t[links[i].source].reason == SANITISE
                                       && t[links[i].source].dest == links[i].dest)
    && (forall p | p in t && t[p].reason == SANITISE :: exists i | 0 <= i < |links| :: links[i].source == p)
  }

  // ----- What each direction does to a single row -----

  lemma UrlInjective(a: Slug, b: Slug)
    ensures Url(a) == Url(b) <==> a == b
    ensures Unslash(Url(a)) == a
  {
    assert Url(a)[1..] == a && Url(b)[1..] == b;
  }

  function At(t: Table, p: Path): Option<Row> {
    if p in t then Some(t[p]) else None
  }

  function RepairAt(row: Option<Row>, p: Path, r: Repair): Option<Row> {
    var o, n := Url(r.from), Url(r.to);
    if !Ascii(r.from) then row
    else if p == o then Some(if row.Some? then row.value.(dest := n, active := true) else Row(n, SANITISE, true))
    else if row.Some? && row.value.dest == o && p != n then Some(row.value.(dest := n))
    else row
  }

  function UpAt(repairs: seq<Repair>, p: Path, row: Option<Row>): Option<Row>
    decreases |repairs|
  {
    if repairs == [] then row else UpAt(repairs[1..], p, RepairAt(row, p, repairs[0]))
  }

  lemma {:induction false} UpIsRowwise(db: Db, repairs: seq<Repair>, p: Path)
    ensures At(Up(db, repairs).redirects, p) == UpAt(repairs, p, At(db.redirects, p))
    decreases |repairs|
  {
    if repairs != [] {
      UpIsRowwise(UpOne(db, repairs[0]), repairs[1..], p);
    }
  }

  /** Repair i leaves a redirect at p. */
  predicate Gives(repairs: seq<Repair>, i: int, p: Path) {
    && 0 <= i < |repairs| && p == "/" + repairs[i].from
    && forall k | 0 <= k < |repairs[i].from| :: 32 <= repairs[i].from[k] as int <= 126
  }

  /** Repair i moves the destination of a row at p. */
  predicate Moves(repairs: seq<Repair>, i: int, p: Path, dest: Path) {
    Gives(repairs, i, dest) && p != Url(repairs[i].to)
  }

  lemma GivesTail(repairs: seq<Repair>, p: Path)
    requires Renaming(repairs) && repairs != []
    ensures Renaming(repairs[1..])
    ensures forall i :: Gives(repairs[1..], i, p) <==> i >= 0 && Gives(repairs, i + 1, p)
    ensures Gives(repairs, 0, p) ==> forall i :: Gives(repairs, i, p) ==> i == 0
    ensures p == Url(repairs[0].to) ==> forall i :: !Gives(repairs, i, p)
  {
    forall i | Gives(repairs, i, p)
      ensures Gives(repairs, 0, p) ==> i == 0
      ensures p != Url(repairs[0].to)
    {
      UrlInjective(repairs[i].from, repairs[0].from);
      UrlInjective(repairs[i].from, repairs[0].to);
    }
    forall i ensures Gives(repairs[1..], i, p) <==> i >= 0 && Gives(repairs, i + 1, p) {
      if 0 <= i < |repairs[1..]| { assert repairs[1..][i] == repairs[i + 1]; }
    }
  }

  /** Away from the old URLs, the destination is repointed at most once. */
  lemma {:induction false} UpElsewhere(repairs: seq<Repair>, p: Path, row: Row)
    requires Renaming(repairs) && forall i :: !Gives(repairs, i, p)
    ensures (forall i :: !Moves(repairs, i, p, row.dest)) ==> UpAt(repairs, p, Some(row)) == Some(row)
    ensures forall i :: Moves(repairs, i, p, row.dest)
                        ==> UpAt(repairs, p, Some(row)) == Some(row.(dest := Url(repairs[i].to)))
    decreases |repairs|
  {
    if repairs != [] {
      GivesTail(repairs, p);
      GivesTail(repairs, row.dest);
      var next := RepairAt(Some(row), p, repairs[0]).value;
      GivesTail(repairs, next.dest);
      assert !Gives(repairs, 0, p);
      forall i ensures !Gives(repairs[1..], i, p) {}
      forall i ensures Moves(repairs[1..], i, p, row.dest) <==> i >= 0 && Moves(repairs, i + 1, p, row.dest) {}
      UpElsewhere(repairs[1..], p, next);
      if forall i :: !Moves(repairs, i, p, row.dest) {
        assert !Moves(repairs, 0, p, row.dest);
        forall i ensures !Moves(repairs[1..], i, p, row.dest) { assert !Moves(repairs, i + 1, p, row.dest); }
      }
      forall i | Moves(repairs, i, p, row.dest)
        ensures UpAt(repairs, p, Some(row)) == Some(row.(dest := Url(repairs[i].to)))
      {
        if i > 0 {
          assert Moves(repairs[1..], i - 1, p, row.dest);
        }
      }
    }
  }

  /** An old URL ends up redirecting to its new one; an existing rule there keeps its reason. */
  lemma {:induction false} UpAtOld(repairs: seq<Repair>, p: Path, row: Option<Row>, i: int)
    requires Renaming(repairs) && Gives(repairs, i, p)
    ensures UpAt(repairs, p, row)
            == Some(Row(Url(repairs[i].to), if row.Some? then row.value.reason else "slug-sanitise", true))
    decreases |repairs|
  {
    GivesTail(repairs, p);
    var next := RepairAt(row, p, repairs[0]);
    if i == 0 {
      GivesTail(repairs, next.value.dest);
      forall j ensures !Gives(repairs[1..], j, p) {}
      forall j ensures !Moves(repairs[1..], j, p, next.value.dest) {}
      UpElsewhere(repairs[1..], p, next.value);
    } else {
      UpAtOld(repairs[1..], p, next, i - 1);
    }
  }

  /** A link recorded by some repair. */
  ghost predicate FromRepairs(repairs: seq<Repair>, links: seq<Link>) {
    forall j | 0 <= j < |links| :: exists i :: Gives(repairs, i, links[j].source) && links[j].dest == Url(repairs[i].to)
  }

  predicate Linked(links: seq<Link>, source: Path) {
    exists j | 0 <= j < |links| :: links[j].source == source
  }

  function DownAt(links: seq<Link>, p: Path, row: Row): Row
    decreases |links|
  {
    if links == [] then row else DownAt(links[1..], p, DownRow(row, p, links[0]))
  }

  lemma {:induction false} DownIsRowwise(db: Db, links: seq<Link>, p: Path)
    ensures var t := DownAll(db, links).redirects;
            At(t, p) == if p in db.redirects then Some(DownAt(links, p, db.redirects[p])) else None
    decreases |links|
  {
    if links != [] {
      DownIsRowwise(DownOne(db, links[0]), links[1..], p);
    }
  }

  /** Replays the roll-back links on one URL. */
  function Back(links: seq<Link>, v: Path): Path
    decreases |links|
  {
    if links == [] then v
    else Back(links[1..], if v == links[0].dest then links[0].source else v)
  }

  lemma LinksTail(repairs: seq<Repair>, links: seq<Link>)
    requires FromRepairs(repairs, links) && links != []
    ensures FromRepairs(repairs, links[1..])
  {
    var tail := links[1..];
    forall j | 0 <= j < |tail| ensures exists m :: Gives(repairs, m, tail[j].source) && tail[j].dest == Url(repairs[m].to) {
      assert tail[j] == links[j + 1];
      var m :| Gives(repairs, m, links[j + 1].source) && links[j + 1].dest == Url(repairs[m].to);
      assert Gives(repairs, m, tail[j].source);
    }
  }

  lemma LinkedTail(links: seq<Link>, source: Path)
    requires links != []
    ensures Linked(links, source) <==> links[0].source == source || Linked(links[1..], source)
  {
    if j :| 0 <= j < |links| && links[j].source == source {
      assert j > 0 ==> links[1..][j - 1] == links[j];
    }
    if j :| 0 <= j < |links[1..]| && links[1..][j].source == source {
      assert links[j + 1].source == source;
    }
  }

  /** The value a roll-back gives to a URL: one link at most applies to it. */
  lemma {:induction false} BackAt(repairs: seq<Repair>, links: seq<Link>, v: Path, i: int)
    requires Renaming(repairs) && FromRepairs(repairs, links) && 0 <= i < |repairs| && v == Url(repairs[i].to)
    ensures Back(links, v) == if Linked(links, Url(repairs[i].from)) then Url(repairs[i].from) else v
    decreases |links|
  {
    var source := Url(repairs[i].from);
    if links != [] {
      var k :| Gives(repairs, k, links[0].source) && links[0].dest == Url(repairs[k].to);
      UrlInjective(repairs[i].to, repairs[k].to);
      LinksTail(repairs, links);
      if k == i {
        BackIdle(repairs, links[1..], source);
        assert links[0].source == source;
      } else {
        UrlInjective(repairs[i].from, repairs[k].from);
        BackAt(repairs, links[1..], v, i);
        LinkedTail(links, source);
      }
    }
  }

  lemma {:induction false} BackIdle(repairs: seq<Repair>, links: seq<Link>, v: Path)
    requires Renaming(repairs) && FromRepairs(repairs, links)
    requires (forall i | 0 <= i < |repairs| :: v != Url(repairs[i].to))
          || (exists i | 0 <= i < |repairs| :: v == Url(repairs[i].from))
    ensures Back(links, v) == v
    decreases |links|
  {
    if links != [] {
      var k :| Gives(repairs, k, links[0].source) && links[0].dest == Url(repairs[k].to);
      if i :| 0 <= i < |repairs| && v == Url(repairs[i].from) { UrlInjective(repairs[i].from, repairs[k].to); }
      LinksTail(repairs, links);
      BackIdle(repairs, links[1..], v);
    }
  }

  /** A row that is neither a link itself nor guarded is rolled back through its destination. */
  lemma {:induction false} DownAtIsBack(links: seq<Link>, p: Path, row: Row)
    requires row.reason != SANITISE && !Linked(links, p)
    ensures DownAt(links, p, row) == row.(dest := Back(links, row.dest))
    decreases |links|
  {
    if links != [] {
      assert links[0].source != p;
      assert !Linked(links[1..], p) by {
        forall j | 0 <= j < |links[1..]| ensures links[1..][j].source != p { assert links[1..][j] == links[j + 1]; }
      }
      DownAtIsBack(links[1..], p, DownRow(row, p, links[0]));
    }
  }

  // ----- The round trip -----

  /** The roll-back reads exactly the links of the repairs whose old URL was free. */
  lemma LinksAreTheRepairs(db: Db, repairs: seq<Repair>, links: seq<Link>)
    requires Renaming(repairs) && (forall p | p in db.redirects :: db.redirects[p].reason != SANITISE)
    requires ListsSanitised(Up(db, repairs).redirects, links)
    ensures FromRepairs(repairs, links)
    ensures forall p :: Linked(links, p) <==> (p !in db.redirects && exists i :: Gives(repairs, i, p))
  {
    var t := Up(db, repairs).redirects;
    forall p
      ensures p in t && t[p].reason == SANITISE <==> (p !in db.redirects && exists i :: Gives(repairs, i, p))
      ensures forall i :: Gives(repairs, i, p) ==> p in t && t[p].dest == Url(repairs[i].to)
    {
      UpIsRowwise(db, repairs, p);
      if i :| Gives(repairs, i, p) {
        UpAtOld(repairs, p, At(db.redirects, p), i);
        forall k | Gives(repairs, k, p) ensures t[p].dest == Url(repairs[k].to) {
          UpAtOld(repairs, p, At(db.redirects, p), k);
        }
      } else if p in db.redirects {
        UpElsewhere(repairs, p, db.redirects[p]);
      } else {
        UpAbsent(repairs, p);
      }
    }
    forall p ensures Linked(links, p) <==> (p in t && t[p].reason == SANITISE) {}
  }

  lemma {:induction false} UpAbsent(repairs: seq<Repair>, p: Path)
    requires Renaming(repairs) && forall i :: !Gives(repairs, i, p)
    ensures UpAt(repairs, p, None) == None
    decreases |repairs|
  {
    if repairs != [] {
      GivesTail(repairs, p);
      assert !Gives(repairs, 0, p);
      forall i ensures !Gives(repairs[1..], i, p) {}
      UpAbsent(repairs[1..], p);
    }
  }

  /** What an existing rule must look like for the migration and its roll-back to leave it alone. */
  ghost predicate RowSurvives(t: Table, repairs: seq<Repair>, p: Path)
    requires p in t
  {
    && t[p].reason != SANITISE
    && (forall i :: Gives(repairs, i, p) ==> t[p].dest == Url(repairs[i].to) && t[p].active)
    && ((forall i :: !Gives(repairs, i, p)) ==>
          && (forall i :: Moves(repairs, i, p, t[p].dest) ==> Url(repairs[i].from) !in t)
          && (forall i | 0 <= i < |repairs| && Ascii(repairs[i].from) && t[p].dest == Url(repairs[i].to) ::
                Url(repairs[i].from) in t))
  }

  /** The fate of one redirect when no sanitising rule existed before. */
  lemma RowRoundTrip(db: Db, repairs: seq<Repair>, links: seq<Link>, p: Path)
    requires Renaming(repairs) && (forall q | q in db.redirects :: db.redirects[q].reason != SANITISE)
    requires ListsSanitised(Up(db, repairs).redirects, links)
    ensures var t := Down(Up(db, repairs), links).redirects;
            && (p in t <==> p in db.redirects)
            && (p in t ==> (t[p] == db.redirects[p] <==> RowSurvives(db.redirects, repairs, p)))
  {
    var t := db.redirects;
    var up := Up(db, repairs);
    LinksAreTheRepairs(db, repairs, links);
    UpIsRowwise(db, repairs, p);
    DownIsRowwise(up, links, p);
    if p !in t {
      if i :| Gives(repairs, i, p) {
        UpAtOld(repairs, p, None, i);
        SanitisedStays(links, p, up.redirects[p]);
      } else {
        UpAbsent(repairs, p);
      }
    } else if i :| Gives(repairs, i, p) {
      UpAtOld(repairs, p, Some(t[p]), i);
      DownAtIsBack(links, p, up.redirects[p]);
      BackAt(repairs, links, Url(repairs[i].to), i);
      forall j | Gives(repairs, j, p) ensures j == i { UrlInjective(repairs[i].from, repairs[j].from); }
    } else {
      UpElsewhere(repairs, p, t[p]);
      assert forall i :: !Gives(repairs, i, p);
      if i :| Moves(repairs, i, p, t[p].dest) {
        DownAtIsBack(links, p, up.redirects[p]);
        BackAt(repairs, links, Url(repairs[i].to), i);
        UrlInjective(repairs[i].from, repairs[i].to);
        MovedSurvives(t, repairs, p, i);
      } else {
        DownAtIsBack(links, p, up.redirects[p]);
        UnmovedSurvives(t, repairs, links, p);
      }
    }
  }

  lemma {:induction false} SanitisedStays(links: seq<Link>, p: Path, row: Row)
    requires row.reason == SANITISE
    ensures DownAt(links, p, row) == row
    decreases |links|
  {
    if links != [] { SanitisedStays(links[1..], p, row); }
  }

  lemma MovedSurvives(t: Table, repairs: seq<Repair>, p: Path, i: int)
    requires Renaming(repairs) && p in t && t[p].reason != SANITISE && (forall j :: !Gives(repairs, j, p))
    requires Moves(repairs, i, p, t[p].dest)
    ensures RowSurvives(t, repairs, p) <==> Url(repairs[i].from) !in t
  {
    forall j | 0 <= j < |repairs|
      ensures t[p].dest != Url(repairs[j].to)
      ensures Gives(repairs, j, t[p].dest) ==> j == i
    {
      UrlInjective(repairs[i].from, repairs[j].to);
      UrlInjective(repairs[i].from, repairs[j].from);
    }
  }

  lemma UnmovedSurvives(t: Table, repairs: seq<Repair>, links: seq<Link>, p: Path)
    requires Renaming(repairs) && FromRepairs(repairs, links)
    requires forall q :: Linked(links, q) <==> (q !in t && exists i :: Gives(repairs, i, q))
    requires p in t && t[p].reason != SANITISE && (forall j :: !Gives(repairs, j, p))
    requires forall j :: !Moves(repairs, j, p, t[p].dest)
    ensures RowSurvives(t, repairs, p) <==> Back(links, t[p].dest) == t[p].dest
  {
    var dest := t[p].dest;
    if i :| 0 <= i < |repairs| && dest == Url(repairs[i].to) {
      BackAt(repairs, links, dest, i);
      UrlInjective(repairs[i].from, repairs[i].to);
      assert Ascii(repairs[i].from) ==> Gives(repairs, i, Url(repairs[i].from));
      forall j | 0 <= j < |repairs| && dest == Url(repairs[j].to) ensures j == i {
        UrlInjective(repairs[i].to, repairs[j].to);
      }
      if exists k :: Gives(repairs, k, Url(repairs[i].from)) {
        var k :| Gives(repairs, k, Url(repairs[i].from));
        UrlInjective(repairs[i].from, repairs[k].from);
      }
    } else {
      BackIdle(repairs, links, dest);
    }
  }

  /**
   Up followed by down restores the redirect table exactly when there was no sanitising rule
   before, an old URL that already redirected did so to its new URL, a rule leading to an old URL
   found that URL free, and a rule leading to a new URL found the old one already redirected.
   */
  lemma RedirectsRestoredIff(db: Db, repairs: seq<Repair>, links: seq<Link>)
    requires Renaming(repairs) && ListsSanitised(Up(db, repairs).redirects, links)
    ensures Down(Up(db, repairs), links).redirects == db.redirects
            <==> forall p | p in db.redirects :: RowSurvives(db.redirects, repairs, p)
  {
    var t := Down(Up(db, repairs), links).redirects;
    if p :| p in db.redirects && db.redirects[p].reason == SANITISE {
      DownKeepsReason(db, repairs, links, p);
      assert !RowSurvives(db.redirects, repairs, p);
    } else {
      forall p
        ensures p in t <==> p in db.redirects
        ensures p in t ==> (t[p] == db.redirects[p] <==> RowSurvives(db.redirects, repairs, p))
      {
        RowRoundTrip(db, repairs, links, p);
      }
    }
  }

  /** A sanitising rule that was there before the migration is lost in the roll-back. */
  lemma DownKeepsReason(db: Db, repairs: seq<Repair>, links: seq<Link>, p: Path)
    requires Renaming(repairs) && p in db.redirects && db.redirects[p].reason == SANITISE
    ensures p !in Down(Up(db, repairs), links).redirects
  {
    var up := Up(db, repairs);
    UpIsRowwise(db, repairs, p);
    DownIsRowwise(up, links, p);
    if i :| Gives(repairs, i, p) {
      UpAtOld(repairs, p, Some(db.redirects[p]), i);
    } else {
      UpElsewhere(repairs, p, db.redirects[p]);
      if i :| Moves(repairs, i, p, db.redirects[p].dest) {}
    }
    SanitisedStays(links, p, up.redirects[p]);
  }

  /**
   The usual case: no sanitising rule yet, no old URL that redirects, no rule that leads to a
   new URL.  Then the redirect table comes back exactly.
   */
  lemma RedirectsRestored(db: Db, repairs: seq<Repair>, links: seq<Link>)
    requires Renaming(repairs) && ListsSanitised(Up(db, repairs).redirects, links)
    requires forall p | p in db.redirects :: db.redirects[p].reason != SANITISE
    requires forall i | 0 <= i < |repairs| :: Url(repairs[i].from) !in db.redirects
    requires forall p, i | p in db.redirects && 0 <= i < |repairs| :: db.redirects[p].dest != Url(repairs[i].to)
    ensures Down(Up(db, repairs), links).redirects == db.redirects
  {
    forall p | p in db.redirects ensures RowSurvives(db.redirects, repairs, p) {}
    RedirectsRestoredIff(db, repairs, links);
  }

  // ----- Properties and configurations -----

  /** A plan made from this database. */
  ghost predicate Planned(db: Db, repairs: seq<Repair>) {
    && Renaming(repairs)
    && (forall i | 0 <= i < |repairs| :: repairs[i].id in db.properties && db.properties[repairs[i].id] == repairs[i].from)
    && (forall i, id | 0 <= i < |repairs| && id in db.properties :: db.properties[id] != repairs[i].to)
    && (forall i, k | 0 <= i < |repairs| && k in db.configs :: db.configs[k].path != Some(Url(repairs[i].to)))
  }

  function Taken(db: Db): set<Slug> {
    (set id | id in db.properties && db.properties[id] != "" :: db.properties[id])
    + (set k | k in db.configs && db.configs[k].path.Some? :: Unslash(db.configs[k].path.value))
  }

  lemma PlansArePlanned(db: Db, rows: seq<SlugRow>)
    requires forall r | r in rows :: r.id in db.properties && db.properties[r.id] == r.slug
    ensures Planned(db, Plan(rows, Taken(db)))
  {
    var repairs := Plan(rows, Taken(db));
    PlanIsRenaming(rows, Taken(db));
    PlanIsSound(rows, Taken(db), repairs);
    forall i | 0 <= i < |repairs|
      ensures repairs[i].id in db.properties && db.properties[repairs[i].id] == repairs[i].from
      ensures forall id | id in db.properties :: db.properties[id] != repairs[i].to
      ensures forall k | k in db.configs :: db.configs[k].path != Some(Url(repairs[i].to))
    {
      assert SoundRepair(repairs[i], rows, Taken(db));
      assert SlugRow(repairs[i].id, repairs[i].from) in rows;
      UrlInjective(repairs[i].to, repairs[i].to);
      forall k | k in db.configs ensures db.configs[k].path != Some(Url(repairs[i].to)) {
        if db.configs[k].path.Some? { assert Unslash(db.configs[k].path.value) in Taken(db); }
      }
    }
  }

  lemma {:induction false} UpProperty(db: Db, repairs: seq<Repair>, id: nat)
    requires Renaming(repairs) && id in db.properties
    requires forall i | 0 <= i < |repairs| :: repairs[i].id in db.properties && db.properties[repairs[i].id] == repairs[i].from
    ensures id in Up(db, repairs).properties
    ensures forall i | 0 <= i < |repairs| && repairs[i].id == id :: Up(db, repairs).properties[id] == repairs[i].to
    ensures (forall i | 0 <= i < |repairs| :: repairs[i].id != id) ==> Up(db, repairs).properties[id] == db.properties[id]
    decreases |repairs|
  {
    if repairs != [] {
      var next := UpOne(db, repairs[0]);
      RenamingTail(repairs);
      if forall i | 0 < i < |repairs| :: repairs[i].id != repairs[0].id {
        assert forall i | 0 <= i < |repairs[1..]| :: repairs[1..][i].id != repairs[0].id;
        UpProperty(next, repairs[1..], id);
        forall i | 0 < i < |repairs| && repairs[i].id == id
          ensures Up(db, repairs).properties[id] == repairs[i].to
        { assert repairs[1..][i - 1] == repairs[i]; }
      }
    }
  }

  lemma RenamingTail(repairs: seq<Repair>)
    requires Renaming(repairs) && repairs != []
    ensures Renaming(repairs[1..])
    ensures forall i | 0 <= i < |repairs[1..]| :: repairs[1..][i] == repairs[i + 1]
  {}

  predicate Matches(c: Config, r: Repair) {
    c.propertyId == Some(r.id) && c.path == Some(Url(r.from))
  }

  /** A configured path follows its property, as one revision; every other configuration stays as it was. */
  lemma {:induction false} UpConfig(db: Db, repairs: seq<Repair>, k: nat)
    requires Renaming(repairs) && k in db.configs
    ensures Up(db, repairs).configs.Keys == db.configs.Keys
    ensures forall i | 0 <= i < |repairs| && Matches(db.configs[k], repairs[i]) ::
              Up(db, repairs).configs[k]
              == db.configs[k].(path := Some("/" + repairs[i].to), revision := db.configs[k].revision + 1)
    ensures (forall i | 0 <= i < |repairs| :: !Matches(db.configs[k], repairs[i])) ==>
              Up(db, repairs).configs[k] == db.configs[k]
    decreases |repairs|
  {
    if repairs != [] {
      var next := UpOne(db, repairs[0]);
      RenamingTail(repairs);
      UpConfig(next, repairs[1..], k);
      forall i | 0 < i < |repairs|
        ensures Matches(db.configs[k], repairs[0]) ==> !Matches(db.configs[k], repairs[i]) && !Matches(next.configs[k], repairs[i])
        ensures Matches(db.configs[k], repairs[i]) ==> Up(db, repairs).configs[k].path == Some(Url(repairs[i].to))
      {
        UrlInjective(repairs[i].from, repairs[0].from);
        UrlInjective(repairs[i].from, repairs[0].to);
        assert repairs[1..][i - 1] == repairs[i];
      }
      assert forall i | 0 <= i < |repairs[1..]| :: repairs[1..][i] == repairs[i + 1];
    }
  }

  lemma DownOneIsBack(db: Db, r: Repair, id: nat)
    requires id in db.properties
    ensures var link := Link(Url(r.from), Url(r.to)); var next := DownOne(db, link);
            && id in next.properties
            && Url(next.properties[id]) == if Url(db.properties[id]) == link.dest then link.source else Url(db.properties[id])
  {
    UrlInjective(db.properties[id], r.to);
    UrlInjective(r.from, r.to);
    UrlInjective(r.to, r.to);
  }

  lemma {:induction false} DownIsBack(db: Db, repairs: seq<Repair>, links: seq<Link>)
    requires FromRepairs(repairs, links)
    ensures var r := DownAll(db, links);
            && r.properties.Keys == db.properties.Keys
            && (forall id | id in db.properties :: Url(r.properties[id]) == Back(links, Url(db.properties[id])))
    decreases |links|
  {
    if links != [] {
      var i :| Gives(repairs, i, links[0].source) && links[0].dest == Url(repairs[i].to);
      var next := DownOne(db, links[0]);
      forall id | id in db.properties
        ensures Url(next.properties[id])
                == if Url(db.properties[id]) == links[0].dest then links[0].source else Url(db.properties[id])
      {
        DownOneIsBack(db, repairs[i], id);
      }
      LinksTail(repairs, links);
      DownIsBack(next, repairs, links[1..]);
    }
  }

  lemma {:induction false} DownConfigIsBack(db: Db, links: seq<Link>, k: nat)
    requires k in db.configs
    ensures var r := DownAll(db, links);
            && k in r.configs
            && r.configs[k].path == match db.configs[k].path case Some(p) => Some(Back(links, p)) case None => None
    decreases |links|
  {
    if links != [] {
      DownConfigIsBack(DownOne(db, links[0]), links[1..], k);
    }
  }

  /** A repair can be undone when its old URL is ASCII and nobody redirected it before. */
  predicate Reversible(t: Table, r: Repair) {
    Ascii(r.from) && Url(r.from) !in t
  }

  lemma LinkedIffReversible(t: Table, repairs: seq<Repair>, links: seq<Link>, i: int)
    requires Renaming(repairs) && 0 <= i < |repairs|
    requires forall p :: Linked(links, p) <==> (p !in t && exists k :: Gives(repairs, k, p))
    ensures Linked(links, Url(repairs[i].from)) <==> Reversible(t, repairs[i])
  {
    if k :| Gives(repairs, k, Url(repairs[i].from)) { UrlInjective(repairs[i].from, repairs[k].from); }
    if Ascii(repairs[i].from) { assert Gives(repairs, i, Url(repairs[i].from)); }
  }

  lemma PropertyRoundTrip(db: Db, repairs: seq<Repair>, links: seq<Link>, id: nat)
    requires Planned(db, repairs) && (forall p | p in db.redirects :: db.redirects[p].reason != SANITISE)
    requires ListsSanitised(Up(db, repairs).redirects, links) && id in db.properties
    ensures var r := Down(Up(db, repairs), links).properties;
            && id in r
            && (forall i | 0 <= i < |repairs| && repairs[i].id == id ::
                  r[id] == db.properties[id] <==> Reversible(db.redirects, repairs[i]))
            && ((forall i | 0 <= i < |repairs| :: repairs[i].id != id) ==> r[id] == db.properties[id])
  {
    var up := Up(db, repairs);
    var r := Down(up, links).properties;
    LinksAreTheRepairs(db, repairs, links);
    DownIsBack(up, repairs, links);
    UpProperty(db, repairs, id);
    UrlInjective(r[id], db.properties[id]);
    forall i | 0 <= i < |repairs| && repairs[i].id == id
      ensures r[id] == db.properties[id] <==> Reversible(db.redirects, repairs[i])
    {
      BackAt(repairs, links, Url(repairs[i].to), i);
      LinkedIffReversible(db.redirects, repairs, links, i);
      UrlInjective(repairs[i].from, repairs[i].to);
    }
    if forall i | 0 <= i < |repairs| :: repairs[i].id != id {
      forall i | 0 <= i < |repairs| ensures Url(db.properties[id]) != Url(repairs[i].to) {
        UrlInjective(db.properties[id], repairs[i].to);
      }
      BackIdle(repairs, links, Url(db.properties[id]));
    }
  }

  /** Rolling back restores every property slug exactly when every repair is reversible. */
  lemma PropertiesRestoredIff(db: Db, repairs: seq<Repair>, links: seq<Link>)
    requires Planned(db, repairs) && (forall p | p in db.redirects :: db.redirects[p].reason != SANITISE)
    requires ListsSanitised(Up(db, repairs).redirects, links)
    ensures Down(Up(db, repairs), links).properties == db.properties
            <==> forall i | 0 <= i < |repairs| :: Reversible(db.redirects, repairs[i])
  {
    var r := Down(Up(db, repairs), links).properties;
    RoundTripKeepsIds(db, repairs, links);
    forall id | id in db.properties
      ensures forall i | 0 <= i < |repairs| && repairs[i].id == id ::
                r[id] == db.properties[id] <==> Reversible(db.redirects, repairs[i])
      ensures (forall i | 0 <= i < |repairs| :: repairs[i].id != id) ==> r[id] == db.properties[id]
    {
      PropertyRoundTrip(db, repairs, links, id);
    }
  }

  lemma RoundTripKeepsIds(db: Db, repairs: seq<Repair>, links: seq<Link>)
    requires Planned(db, repairs) && (forall p | p in db.redirects :: db.redirects[p].reason != SANITISE)
    requires ListsSanitised(Up(db, repairs).redirects, links)
    ensures Down(Up(db, repairs), links).properties.Keys == db.properties.Keys
  {
    LinksAreTheRepairs(db, repairs, links);
    DownIsBack(Up(db, repairs), repairs, links);
    UpKeepsIds(db, repairs);
  }

  lemma {:induction false} UpKeepsIds(db: Db, repairs: seq<Repair>)
    ensures Up(db, repairs).properties.Keys == db.properties.Keys
    decreases |repairs|
  {
    if repairs != [] {
      UpKeepsIds(UpOne(db, repairs[0]), repairs[1..]);
    }
  }

  /** And it restores the path of a configuration exactly when the repairs that moved it are reversible. */
  lemma ConfigPathRestoredIff(db: Db, repairs: seq<Repair>, links: seq<Link>, k: nat)
    requires Planned(db, repairs) && (forall p | p in db.redirects :: db.redirects[p].reason != SANITISE)
    requires ListsSanitised(Up(db, repairs).redirects, links) && k in db.configs
    ensures var r := Down(Up(db, repairs), links).configs;
            k in r && (r[k].path == db.configs[k].path
                       <==> forall i | 0 <= i < |repairs| && Matches(db.configs[k], repairs[i]) ::
                              Reversible(db.redirects, repairs[i]))
  {
    var up := Up(db, repairs);
    LinksAreTheRepairs(db, repairs, links);
    UpConfig(db, repairs, k);
    DownConfigIsBack(up, links, k);
    if i :| 0 <= i < |repairs| && Matches(db.configs[k], repairs[i]) {
      BackAt(repairs, links, Url(repairs[i].to), i);
      LinkedIffReversible(db.redirects, repairs, links, i);
      UrlInjective(repairs[i].from, repairs[i].to);
      forall j | 0 <= j < |repairs| && Matches(db.configs[k], repairs[j]) ensures j == i {
        UrlInjective(repairs[i].from, repairs[j].from);
      }
    } else if db.configs[k].path.Some? {
      BackIdle(repairs, links, db.configs[k].path.value);
    }
  }

  // ----- The whole migration and the redirect graph -----

  /** The edges that a plan adds: from each old URL that can be redirected to its new one. */
  function NewEdges(repairs: seq<Repair>): Graph {
    if repairs == [] then map[]
    else NewEdges(repairs[1..]) + if Ascii(repairs[0].from) then map[Url(repairs[0].from) := Url(repairs[0].to)] else map[]
  }

  lemma {:induction false} NewEdgesAre(repairs: seq<Repair>, p: Path)
    requires Renaming(repairs)
    ensures p in NewEdges(repairs) <==> exists i :: Gives(repairs, i, p)
    ensures forall i :: Gives(repairs, i, p) ==> p in NewEdges(repairs) && NewEdges(repairs)[p] == Url(repairs[i].to)
    decreases |repairs|
  {
    if repairs != [] {
      GivesTail(repairs, p);
      NewEdgesAre(repairs[1..], p);
      forall i | Gives(repairs, i, p) ensures i > 0 ==> Gives(repairs[1..], i - 1, p) {}
      if p in NewEdges(repairs) && p !in NewEdges(repairs[1..]) {
        assert Gives(repairs, 0, p);
      } else if p in NewEdges(repairs) {
        var i :| Gives(repairs[1..], i, p);
        assert Gives(repairs, i + 1, p);
      }
    }
  }

  /** Where a URL leads after the migration: one hop, or two, of the former edges with the new ones added. */
  lemma UpEdge(db: Db, repairs: seq<Repair>, p: Path)
    requires Renaming(repairs)
    ensures var g, h := Edges(db.redirects) + NewEdges(repairs), Edges(Up(db, repairs).redirects);
            && (p in h <==> p in g)
            && (p in h ==> h[p] == g[p] || (g[p] in g && h[p] == g[g[p]]))
  {
    UpIsRowwise(db, repairs, p);
    NewEdgesAre(repairs, p);
    if i :| Gives(repairs, i, p) {
      UpAtOld(repairs, p, At(db.redirects, p), i);
    } else if p in db.redirects {
      var dest := db.redirects[p].dest;
      UpElsewhere(repairs, p, db.redirects[p]);
      if i :| Moves(repairs, i, p, dest) {
        NewEdgesAre(repairs, dest);
      }
    } else {
      UpAbsent(repairs, p);
    }
  }

  /**
   The whole migration leaves no loop exactly when its new edges, added to the former ones all at
   once, close none.  It never checks this.
   */
  lemma UpAcyclicIff(db: Db, repairs: seq<Repair>)
    requires Renaming(repairs)
    ensures Acyclic(Edges(Up(db, repairs).redirects)) <==> Acyclic(Edges(db.redirects) + NewEdges(repairs))
  {
    var g, h := Edges(db.redirects) + NewEdges(repairs), Edges(Up(db, repairs).redirects);
    forall p
      ensures p in h <==> p in g
      ensures p in h ==> h[p] == g[p] || (g[p] in g && h[p] == g[g[p]])
    {
      UpEdge(db, repairs, p);
    }
    ShortcutsKeepCycles(g, h);
  }

  /** In particular when no new URL redirects anywhere yet. */
  lemma UpKeepsAcyclic(db: Db, repairs: seq<Repair>)
    requires Renaming(repairs) && Acyclic(Edges(db.redirects))
    requires forall i | 0 <= i < |repairs| :: Url(repairs[i].to) !in Edges(db.redirects)
    ensures Acyclic(Edges(Up(db, repairs).redirects))
  {
    var g, h := Edges(db.redirects), Edges(db.redirects) + NewEdges(repairs);
    forall p | p in h ensures (p in g && g[p] == h[p]) || h[p] !in h {
      NewEdgesAre(repairs, p);
      if i :| Gives(repairs, i, p) {
        NewEdgesAre(repairs, h[p]);
        forall j ensures !Gives(repairs, j, h[p]) {
          if 0 <= j < |repairs| { UrlInjective(repairs[i].to, repairs[j].from); }
        }
      }
    }
    DeadEndsKeepAcyclic(g, h);
    UpAcyclicIff(db, repairs);
  }

  /**
   Two repairs can loop together although neither new URL leads to its own old one: each new URL
   leads to the other's old one.
   */
  lemma TwoRepairsLoop(db: Db, a: Repair, b: Repair)
    requires Renaming([a, b]) && Ascii(a.from) && Ascii(b.from)
    requires db.redirects == map[Url(a.to) := Row(Url(b.from), "manual", true), Url(b.to) := Row(Url(a.from), "manual", true)]
    ensures Acyclic(Edges(db.redirects))
    ensures !Reaches(Edges(db.redirects), Url(a.to), Url(a.from)) && !Reaches(Edges(db.redirects), Url(b.to), Url(b.from))
    ensures !Acyclic(Edges(Up(db, [a, b]).redirects))
  {
    var g := Edges(db.redirects);
    var repairs := [a, b];
    FourUrls(a, b);
    assert g == map[Url(a.to) := Url(b.from), Url(b.to) := Url(a.from)];
    forall p, n: nat ensures Hop(g, p, n) == if n == 0 then Some(p) else if n == 1 && p in g then Some(g[p]) else None {
      assert p in g ==> g[p] !in g;
    }
    var h := g + NewEdges(repairs);
    forall p, i | Gives(repairs, i, p) ensures p in h && h[p] == Url(repairs[i].to) {
      NewEdgesAre(repairs, p);
    }
    assert Gives(repairs, 0, Url(a.from)) && Gives(repairs, 1, Url(b.from));
    NewEdgesAre(repairs, Url(a.to));
    NewEdgesAre(repairs, Url(b.to));
    FourEdgesLoop(h, Url(a.to), Url(b.from), Url(b.to), Url(a.from));
    UpAcyclicIff(db, repairs);
  }

  lemma FourEdgesLoop(g: Graph, p: Path, q: Path, r: Path, s: Path)
    requires {p, q, r, s} <= g.Keys && g[p] == q && g[q] == r && g[r] == s && g[s] == p
    ensures !Acyclic(g)
  {
    assert Hop(g, p, 4) == Hop(g, q, 3) == Hop(g, r, 2) == Hop(g, s, 1) == Hop(g, p, 0);
  }

  lemma FourUrls(a: Repair, b: Repair)
    requires Renaming([a, b])
    ensures Url(a.from) != Url(b.from) && Url(a.to) != Url(b.to)
    ensures {Url(a.from), Url(b.from)} !! {Url(a.to), Url(b.to)}
  {
    var repairs := [a, b];
    assert repairs[0].from != repairs[1].from && repairs[0].to != repairs[1].to;
    assert repairs[0].from != repairs[0].to && repairs[0].from != repairs[1].to;
    assert repairs[1].from != repairs[0].to && repairs[1].from != repairs[1].to;
    UrlInjective(a.from, b.from);
    UrlInjective(a.to, b.to);
    UrlInjective(a.from, a.to);
    UrlInjective(a.from, b.to);
    UrlInjective(b.from, a.to);
    UrlInjective(b.from, b.to);
  }

  lemma NotContained(s: string, sub: string, k: nat)
    requires k < |sub| && forall i | k <= i < |s| :: s[i] != sub[k]
    ensures !Strings.Contains(s, sub)
  {
    forall i | 0 <= i <= |s| - |sub| ensures s[i..][..|sub|] != sub {
      assert s[i..][..|sub|][k] == s[i + k];
    }
  }

  lemma {:induction false} WholeSegment(s: string)
    requires forall i | 0 <= i < |s| :: s[i] != '/'
    ensures Segment(s) == s
  {
    if s != "" {
      WholeSegment(s[1..]);
    }
  }

  predicate PlainSegment(s: string) {
    && 0 < |s| < 512 && s !in {".", ".."} && s !in RESERVED
    && forall i | 0 <= i < |s| :: PathChar(s[i]) && s[i] != '%' && s[i] != '/'
  }

  /** A path of one segment without slashes or escapes is in normal form. */
  lemma OneSegmentPath(segment: string)
    requires PlainSegment(segment)
    ensures PathValue(Url(segment)) == Ok(Url(segment))
  {
    var path := Url(segment);
    forall i | 0 < i < |path| ensures PathChar(path[i]) && path[i] != '%' && path[i] != '/' {
      assert path[i] == segment[i - 1];
    }
    SegmentWellFormed(path);
    SegmentAllowed(path);
    assert StripSlashes(path) == path;
  }

  lemma SegmentWellFormed(path: string)
    requires 1 < |path| <= 512 && path[0] == '/'
    requires forall i | 0 < i < |path| :: PathChar(path[i]) && path[i] != '%' && path[i] != '/'
    ensures !Malformed(path)
  {
    assert PathChar('/') && path[1] != '/';
    forall escape | escape in ESCAPES ensures !Strings.Contains(path, escape) {
      NotContained(path, escape, 0);
    }
  }

  lemma SegmentAllowed(path: string)
    requires 1 < |path| && path[0] == '/' && path[1..] !in {".", ".."} && path[1..] !in RESERVED
    requires forall i | 0 < i < |path| :: path[i] != '/'
    ensures !Forbidden(path)
  {
    NotContained(path, "//", 1);
    WholeSegment(path[1..]);
  }

  /** A dot between two letters becomes a dash. */
  lemma DotBecomesDash(a: char, b: char)
    requires Slugs.Alnum(a) && Slugs.Alnum(b)
    ensures Slugs.NormalizeSeoSlug([a, '.', b]) == [a, '-', b] && !Slugs.SafeSlug([a, '.', b])
  {
    var slug := [a, '.', b];
    assert Slugs.Lower(slug) == slug;
    NothingToSpell(a, b);
    DottedIsDashed(a, b);
    assert !Slugs.Alnum(slug[1]) && slug[1] != '-';
  }

  lemma NothingToSpell(a: char, b: char)
    requires Slugs.Alnum(a) && Slugs.Alnum(b)
    ensures Slugs.SpellAmpersand([a, '.', b]) == [a, '.', b] && Slugs.DropQuotes([a, '.', b]) == [a, '.', b]
  {
    var slug := [a, '.', b];
    assert slug[1..] == ['.', b] && ['.', b][1..] == [b] && [b][1..] == [];
    assert Slugs.SpellAmpersand([b]) == [b] && Slugs.DropQuotes([b]) == [b];
    assert Slugs.SpellAmpersand(['.', b]) == ['.'] + [b] == ['.', b] && Slugs.DropQuotes(['.', b]) == ['.'] + [b];
    assert [a] + ['.', b] == slug;
  }

  lemma DottedIsDashed(a: char, b: char)
    requires Slugs.Alnum(a) && Slugs.Alnum(b)
    ensures Slugs.Dashed([a, '.', b]) == [a, '-', b]
  {
    var slug := [a, '.', b];
    assert slug[1..] == ['.', b] && ['.', b][1..] == [b] && [b][1..] == [];
    assert Slugs.Dashed([b]) == [b];
    assert Slugs.Dashed(['.', b]) == "-" + [b];
    assert [a] + ("-" + [b]) == [a, '-', b];
  }

  lemma ThreeCharacters(a: char, m: char, b: char)
    requires Slugs.Alnum(a) && Slugs.Alnum(b) && m in {'.', '-'}
    ensures PlainSegment([a, m, b])
  {
    var s := [a, m, b];
    assert |"admin"| == 5 && |"_next"| == 5 && |"seo-route"| == 9 && |"seo-section"| == 11;
    assert "api"[1] == 'p' && s[1] == m;
    assert s !in RESERVED;
  }

  lemma PlanStep(r: Repair, rest: seq<SlugRow>, used: set<Slug>)
    requires Slugs.Sanitises(r.from, r.to) && r.from != "" && r.to !in used
    ensures Plan([SlugRow(r.id, r.from)] + rest, used) == [r] + Plan(rest, used + {r.to})
  {
    assert ([SlugRow(r.id, r.from)] + rest)[1..] == rest;
  }

  lemma TwoFree(db: Db, a: Repair, b: Repair)
    requires Renaming([a, b]) && db.properties == map[a.id := a.from, b.id := b.from] && a.id != b.id && db.configs == map[]
    ensures a.to !in Taken(db) && b.to !in Taken(db) + {a.to}
  {
    var repairs := [a, b];
    assert repairs[0].to != repairs[1].to && repairs[0].from != repairs[0].to && repairs[0].from != repairs[1].to;
    assert repairs[1].from != repairs[0].to && repairs[1].from != repairs[1].to;
  }

  /** Two unsafe slugs whose safe forms are free are repaired. */
  lemma TwoPlanned(db: Db, a: Repair, b: Repair)
    requires Renaming([a, b]) && Slugs.Sanitises(a.from, a.to) && Slugs.Sanitises(b.from, b.to)
    requires a.from != "" && b.from != ""
    requires a.id != b.id && db.properties == map[a.id := a.from, b.id := b.from] && db.configs == map[]
    ensures Plan([SlugRow(a.id, a.from), SlugRow(b.id, b.from)], Taken(db)) == [a, b]
  {
    TwoFree(db, a, b);
    PlanStep(a, [SlugRow(b.id, b.from)], Taken(db));
    PlanStep(b, [], Taken(db) + {a.to});
    assert [SlugRow(a.id, a.from)] + [SlugRow(b.id, b.from)] == [SlugRow(a.id, a.from), SlugRow(b.id, b.from)];
    assert [SlugRow(b.id, b.from)] + [] == [SlugRow(b.id, b.from)];
    assert [a] + ([b] + []) == [a, b];
  }

  /**
   For instance properties with the slugs p.q and r.s, and redirects from /p-q to /r.s and from
   /r-s to /p.q.  All four are paths the redirect manager accepts, and the migration plans just
   these two repairs.
   */
  lemma TwoRepairsLoopInstance(db: Db)
    requires db.properties == map[1 := ['p', '.', 'q'], 2 := ['r', '.', 's']] && db.configs == map[]
    requires var a, b := Repair(1, ['p', '.', 'q'], ['p', '-', 'q']), Repair(2, ['r', '.', 's'], ['r', '-', 's']);
             db.redirects == map[Url(a.to) := Row(Url(b.from), "manual", true), Url(b.to) := Row(Url(a.from), "manual", true)]
    ensures var a, b := Repair(1, ['p', '.', 'q'], ['p', '-', 'q']), Repair(2, ['r', '.', 's'], ['r', '-', 's']);
            && (forall slug | slug in {a.from, b.from, a.to, b.to} :: PathValue(Url(slug)) == Ok(Url(slug)))
            && Plan([SlugRow(1, a.from), SlugRow(2, b.from)], Taken(db)) == [a, b]
            && Acyclic(Edges(db.redirects)) && !Acyclic(Edges(Up(db, [a, b]).redirects))
  {
    var a, b := DotRepair(1, 'p', 'q'), DotRepair(2, 'r', 's');
    DotRepairOk(1, 'p', 'q');
    DotRepairOk(2, 'r', 's');
    DotRepairsRename('p', 'q', 'r', 's');
    forall slug | slug in {a.from, b.from, a.to, b.to} ensures PathValue(Url(slug)) == Ok(Url(slug)) {
      OneSegmentPath(slug);
    }
    TwoPlanned(db, a, b);
    TwoRepairsLoop(db, a, b);
  }

  function DotRepair(id: nat, a: char, b: char): Repair {
    Repair(id, [a, '.', b], [a, '-', b])
  }

  lemma DotRepairOk(id: nat, a: char, b: char)
    requires Slugs.Alnum(a) && Slugs.Alnum(b)
    ensures var r := DotRepair(id, a, b);
            Ascii(r.from) && Slugs.Sanitises(r.from, r.to) && PlainSegment(r.from) && PlainSegment(r.to)
  {
    DotBecomesDash(a, b);
    DashIsSafe(a, b);
    ThreeCharacters(a, '.', b);
    ThreeCharacters(a, '-', b);
  }

  lemma DotRepairsRename(a: char, b: char, c: char, d: char)
    requires a != c
    ensures Renaming([DotRepair(1, a, b), DotRepair(2, c, d)])
  {
    var first, second := DotRepair(1, a, b), DotRepair(2, c, d);
    assert first.from[0] == first.to[0] == a && second.from[0] == second.to[0] == c;
    assert first.from[1] == second.from[1] == '.' && first.to[1] == second.to[1] == '-';
  }

  lemma DashIsSafe(a: char, b: char)
    requires Slugs.Alnum(a) && Slugs.Alnum(b)
    ensures Slugs.SafeSlug([a, '-', b])
  {}

  /** Former destinations are repointed, not chained: nothing leads to a redirected old URL any more. */
  lemma NothingLeadsToOldUrls(db: Db, repairs: seq<Repair>, p: Path, i: int)
    requires Renaming(repairs) && p in Up(db, repairs).redirects && 0 <= i < |repairs|
    ensures Gives(repairs, i, Up(db, repairs).redirects[p].dest) ==> p == Url(repairs[i].to)
  {
    UpIsRowwise(db, repairs, p);
    if k :| Gives(repairs, k, p) {
      UpAtOld(repairs, p, At(db.redirects, p), k);
      UrlInjective(repairs[i].from, repairs[k].to);
    } else if p in db.redirects {
      UpElsewhere(repairs, p, db.redirects[p]);
      if k :| Moves(repairs, k, p, db.redirects[p].dest) { UrlInjective(repairs[i].from, repairs[k].to); }
    } else {
      UpAbsent(repairs, p);
    }
  }

  // ----- The migration class -----

  class SanitizePropertySlugs {
    var properties: map<nat, Slug>
    var configs: map<nat, Config>
    var redirects: Table

    constructor (db: Db)
      ensures State() == db
    {
      properties, configs, redirects := db.properties, db.configs, db.redirects;
    }

    function State(): Db
      reads this
    {
      Db(properties, configs, redirects)
    }

    method ApplyUp(rows: seq<SlugRow>)
      requires forall r | r in rows :: r.id in properties && properties[r.id] == r.slug
      modifies this
      ensures State() == Up(old(State()), Plan(rows, Taken(old(State()))))
    {
      if rows == [] {
        return;
      }
      var repairs := PlanSlugRepairs(rows, Taken(State()));
      ghost var goal := Up(State(), repairs);
      for i := 0 to |repairs|
        invariant Up(State(), repairs[i..]) == goal
      {
        var r := repairs[i];
        assert repairs[i..][1..] == repairs[i + 1..];
        ghost var next := UpOne(State(), r);
        if r.id in properties {
          properties := properties[r.id := r.to];
        }
        configs := map k | k in configs :: RepairConfig(configs[k], r);
        if Ascii(r.from) {
          redirects := RepairRedirects(redirects, Url(r.from), Url(r.to));
        }
        assert State() == next;
      }
    }

    method ApplyDown(links: seq<Link>)
      requires ListsSanitised(redirects, links)
      modifies this
      ensures State() == Down(old(State()), links)
    {
      ghost var goal := DownAll(State(), links);
      for i := 0 to |links|
        invariant DownAll(State(), links[i..]) == goal
      {
        var link := links[i];
        assert links[i..][1..] == links[i + 1..];
        ghost var next := DownOne(State(), link);
        properties := map id | id in properties ::
          if properties[id] == Unslash(link.dest) then Unslash(link.source) else properties[id];
        configs := map k | k in configs ::
          if configs[k].path == Some(link.dest) then configs[k].(path := Some(link.source)) else configs[k];
        redirects := map p | p in redirects :: DownRow(redirects[p], p, link);
        assert State() == next;
      }
      redirects := DropSanitised(redirects);
    }
  }
}
