/**
 The seo_redirects table and the three services that write to it: the redirect manager,
 renames of configured pages, and blog slug changes.
 */
module Redirects {
  import opened Common
  import opened RedirectGraph
  import opened Strings

  const MAX_WALK := 100

  datatype Row = Row(dest: Path, reason: string, active: bool)
  type Table = map<Path, Row>

  /** Only active rows redirect. */
  function Edges(t: Table): Graph {
    map p | p in t && t[p].active :: t[p].dest
  }

  datatype RedirectError =
    | InvalidPath | SameSourceAndDestination | CreatesLoop | ChainTooLong | UnknownDestination
    | OccupiedByRedirect | OldUrlHasOwnRedirect

  // ----- Normal form of paths -----

  predicate PathChar(c: char) {
    'a' <= c <= 'z' || '0' <= c <= '9' || c in "%._~!$&'()+,;=@/-"
  }

  function StripSlashes(s: string): string {
    if s != "" && s[|s| - 1] == '/' then StripSlashes(s[..|s| - 1]) else s
  }

  /** The first path segment, up to the next slash. */
  function Segment(s: string): string {
    if s == "" || s[0] == '/' then "" else [s[0]] + Segment(s[1..])
  }

  predicate HasDotSegment(s: string) {
    exists i | 0 < i <= |s| :: s[i - 1] == '/' && Segment(s[i..]) in {".", ".."}
  }

  const RESERVED := {"admin", "api", "_next", "seo-route", "seo-section"}

  const ESCAPES := {"%2f", "%5c", "%00", "%2e"}

  /** What is refused before trailing slashes are removed. */
  predicate Malformed(value: string) {
    || |value| > 512 || value == "" || value[0] != '/' || (exists i | 0 <= i < |value| :: !PathChar(value[i]))
    || "//" <= value
    || exists escape | escape in ESCAPES :: Contains(value, escape)
  }

  /** What is refused afterwards. */
  predicate Forbidden(path: string) {
    Contains(path, "//") || HasDotSegment(path) || (path != "" && Segment(path[1..]) in RESERVED)
  }

  function PathValue(value: string): (r: Result<Path, RedirectError>) {
    if Malformed(value) then Err(InvalidPath)
    else
      var stripped := StripSlashes(value);
      var path := if stripped == "" then "/" else stripped;
      if Forbidden(path) then Err(InvalidPath) else Ok(path)
  }

  // ----- Which paths are accepted, and as what -----

  const PATH_SIGNS := {'%', '.', '_', '~', '!', '$', '&', '\'', '(', ')', '+', ',', ';', '=', '@', '/', '-'}

  predicate PathLetter(c: char) {
    ('a' <= c && c <= 'z') || ('0' <= c && c <= '9') || c in PATH_SIGNS
  }

  /** What stands between a slash and the next one, or the end. */
  ghost predicate SegmentAt(path: string, from: int, to: int) {
    && 0 < from <= to <= |path| && path[from - 1] == '/'
    && (forall k | from <= k < to :: path[k] != '/')
    && (to < |path| ==> path[to] == '/')
  }

  /** The root, or segments that are neither empty nor dots, outside the reserved areas. */
  ghost predicate SitePath(path: string) {
    && 0 < |path| <= 512 && path[0] == '/'
    && (forall i | 0 <= i < |path| :: PathLetter(path[i]))
    && (forall i | 0 <= i <= |path| - 3 :: path[i..][..3] !in {"%2f", "%5c", "%00", "%2e"})
    && (path != "/" ==> forall from, to | SegmentAt(path, from, to) ::
          && path[from..to] !in {"", ".", ".."}
          && (from == 1 ==> path[from..to] !in {"admin", "api", "_next", "seo-route", "seo-section"}))
  }

  /** `value` is this path of the site, written with any number of slashes after it. */
  ghost predicate Names(value: string, path: Path) {
    && SitePath(path)
    && |value| <= 512 && path <= value && (forall i | |path| <= i < |value| :: value[i] == '/')
    && (path == "/" ==> value == "/")
  }

  lemma {:induction false} StripSlashesIs(s: string)
    ensures StripSlashes(s) <= s
    ensures forall i | |StripSlashes(s)| <= i < |s| :: s[i] == '/'
    ensures StripSlashes(s) != "" ==> StripSlashes(s)[|StripSlashes(s)| - 1] != '/'
  {
    if s != "" && s[|s| - 1] == '/' {
      StripSlashesIs(s[..|s| - 1]);
    }
  }

  lemma StrippedIsUnique(s: string, p: string)
    requires p <= s && (forall i | |p| <= i < |s| :: s[i] == '/') && (p != "" ==> p[|p| - 1] != '/')
    ensures StripSlashes(s) == p
  {
    StripSlashesIs(s);
  }

  lemma LettersArePathChars(c: char)
    ensures PathChar(c) <==> PathLetter(c)
  {}

  lemma {:induction false} SegmentIs(s: string)
    ensures Segment(s) <= s && '/' !in Segment(s)
    ensures |Segment(s)| < |s| ==> s[|Segment(s)|] == '/'
  {
    if s != "" && s[0] != '/' {
      SegmentIs(s[1..]);
    }
  }

  lemma SegmentsAre(path: string, from: nat)
    requires 0 < from <= |path| && path[from - 1] == '/'
    ensures SegmentAt(path, from, from + |Segment(path[from..])|)
    ensures forall to | SegmentAt(path, from, to) :: path[from..to] == Segment(path[from..])
  {
    var rest := path[from..];
    var segment := Segment(rest);
    SegmentIs(rest);
    assert forall k | 0 <= k < |rest| :: rest[k] == path[from + k];
    forall k | from <= k < from + |segment| ensures path[k] != '/' {
      assert segment[k - from] == rest[k - from];
    }
    assert |segment| < |rest| ==> path[from + |segment|] == '/';
    forall to | SegmentAt(path, from, to) ensures path[from..to] == segment {
      assert path[from..to] == rest[..|segment|];
    }
  }

  /** An empty segment shows as two slashes in a row or as one at the end. */
  lemma EmptySegments(path: string)
    requires path != "" && path[0] == '/'
    ensures (exists i :: SegmentAt(path, i, i)) <==> Contains(path, "//") || path[|path| - 1] == '/'
  {
    if path[|path| - 1] == '/' {
      assert SegmentAt(path, |path|, |path|);
    }
    if i :| 0 <= i <= |path| - 2 && path[i..][..2] == "//" {
      assert path[i] == path[i..][..2][0] && path[i + 1] == path[i..][..2][1];
      assert SegmentAt(path, i + 1, i + 1);
    }
    if i :| SegmentAt(path, i, i) && i < |path| {
      assert path[i - 1..][..2] == "//";
    }
  }

  lemma DotSegments(path: string)
    ensures HasDotSegment(path) <==> exists from, to :: SegmentAt(path, from, to) && path[from..to] in {".", ".."}
  {
    if i :| 0 < i <= |path| && path[i - 1] == '/' && Segment(path[i..]) in {".", ".."} {
      SegmentsAre(path, i);
      assert SegmentAt(path, i, i + |Segment(path[i..])|);
    }
    if from, to :| SegmentAt(path, from, to) && path[from..to] in {".", ".."} {
      SegmentsAre(path, from);
      assert Segment(path[from..]) == path[from..to];
    }
  }

  /** The checks after the slashes are gone, segment by segment. */
  lemma ForbiddenIff(path: string)
    requires path != "" && path[0] == '/' && path != "/" && path[|path| - 1] != '/'
    ensures !Forbidden(path)
            <==> forall from, to | SegmentAt(path, from, to) ::
                   && path[from..to] !in {"", ".", ".."}
                   && (from == 1 ==> path[from..to] !in RESERVED)
  {
    EmptySegments(path);
    DotSegments(path);
    SegmentsAre(path, 1);
    assert forall i | SegmentAt(path, i, i) :: path[i..i] == "";
  }

  lemma EscapesAre(s: string)
    ensures (exists escape | escape in ESCAPES :: Contains(s, escape))
            <==> exists i | 0 <= i <= |s| - 3 :: s[i..][..3] in ESCAPES
  {
    if i :| 0 <= i <= |s| - 3 && s[i..][..3] in ESCAPES {
      assert Contains(s, s[i..][..3]);
    }
  }

  /** Slashes at the end bring in nothing that is refused early. */
  lemma MalformedIff(value: string, path: string)
    requires path != "" && path <= value && |value| <= 512 && forall i | |path| <= i < |value| :: value[i] == '/'
    requires path != "/" ==> path[|path| - 1] != '/'
    ensures !Malformed(value)
            <==> && path[0] == '/' && (forall i | 0 <= i < |path| :: PathLetter(path[i]))
                 && (forall i | 0 <= i <= |path| - 3 :: path[i..][..3] !in ESCAPES)
                 && !("//" <= value)
  {
    forall c ensures PathChar(c) <==> PathLetter(c) { LettersArePathChars(c); }
    assert PathChar('/');
    assert (forall i | 0 <= i < |value| :: PathChar(value[i])) <==> forall i | 0 <= i < |path| :: PathLetter(path[i]) by {
      assert forall i | 0 <= i < |path| :: path[i] == value[i];
    }
    EscapesAre(value);
    SameEscapes(value, path);
  }

  lemma SameEscapes(value: string, path: string)
    requires path <= value && forall i | |path| <= i < |value| :: value[i] == '/'
    ensures (forall i | 0 <= i <= |path| - 3 :: path[i..][..3] !in ESCAPES)
            <==> forall i | 0 <= i <= |value| - 3 :: value[i..][..3] !in ESCAPES
  {
    forall i | 0 <= i <= |value| - 3
      ensures i + 3 <= |path| ==> value[i..][..3] == path[i..][..3]
      ensures i + 3 > |path| ==> value[i..][..3] !in ESCAPES
    {
      if i + 3 > |path| {
        assert value[i..][..3][2] == value[i + 2] == '/';
      }
    }
    forall i | 0 <= i <= |path| - 3 ensures value[i..][..3] == path[i..][..3] {}
  }

  /** A path is accepted as `path` exactly when it names that path of the site. */
  lemma AcceptedIff(value: string, path: Path)
    ensures PathValue(value) == Ok(path) <==> Names(value, path)
  {
    if PathValue(value) == Ok(path) {
      AcceptedNames(value, path);
    }
    if Names(value, path) {
      NamedIsAccepted(value, path);
    }
  }

  lemma AcceptedNames(value: string, path: Path)
    requires PathValue(value) == Ok(path)
    ensures Names(value, path)
  {
    StripSlashesIs(value);
    assert path == "/" ==> forall i | 0 <= i < |value| :: value[i] == '/';
    assert |value| > 1 && value[1] == '/' ==> "//" <= value;
    MalformedIff(value, path);
    if path != "/" {
      ForbiddenIff(path);
    }
  }

  lemma NamedIsAccepted(value: string, path: Path)
    requires Names(value, path)
    ensures PathValue(value) == Ok(path)
  {
    if path == "/" {
      RootIsAccepted();
    } else {
      NoSlashAround(path);
      StrippedIsUnique(value, path);
      assert value[1] == path[1];
      MalformedIff(value, path);
      assert !Malformed(value);
      ForbiddenIff(path);
      assert !Forbidden(path);
      Accepts(value, path);
    }
  }

  lemma Accepts(value: string, path: Path)
    requires path != "" && StripSlashes(value) == path && !Malformed(value) && !Forbidden(path)
    ensures PathValue(value) == Ok(path)
  {}

  lemma RootIsAccepted()
    ensures PathValue("/") == Ok("/")
  {
    StrippedIsUnique("/", "");
    MalformedIff("/", "/");
    assert "/"[1..] == "";
  }

  lemma NoSlashAround(path: string)
    requires SitePath(path) && path != "/"
    ensures path[1] != '/' && path[|path| - 1] != '/'
  {
    EmptySegments(path);
    assert path[1] == '/' ==> SegmentAt(path, 1, 1);
    assert forall i | SegmentAt(path, i, i) :: path[i..i] == "";
  }

  /**
   What is accepted is accepted without the slashes after it: the path is the value up to its trailing
   slashes, it stands for itself, and a slash behind it changes nothing.
   */
  lemma PathValueStable(value: string, path: Path)
    requires PathValue(value) == Ok(path)
    ensures path <= value && (forall i | |path| <= i < |value| :: value[i] == '/')
    ensures path == "/" || path[|path| - 1] != '/'
    ensures PathValue(path) == Ok(path)
    ensures path != "/" && |path| < 512 ==> PathValue(path + "/") == Ok(path)
  {
    AcceptedIff(value, path);
    AcceptedIff(path, path);
    AcceptedIff(path + "/", path);
    if path != "/" {
      NoSlashAround(path);
    }
  }

  // ----- The redirect manager -----

  /** What the redirect manager answers for normalised paths. */
  ghost function Verdict(g: Graph, source: Path, dest: Path, targetExists: bool): Option<RedirectError> {
    if source == dest then Some(SameSourceAndDestination)
    else if ReachesWithin(g, dest, source, MAX_WALK) then Some(CreatesLoop)
    else if Hop(g, dest, MAX_WALK).Some? then Some(ChainTooLong)
    else if !targetExists then Some(UnknownDestination)
    else None
  }

  /**
   On an acyclic table the walk refuses exactly the edges that would close a cycle, and
   those behind whose destination a chain of a hundred redirects already hangs.
   */
  lemma WalkRefusesExactlyCycles(g: Graph, source: Path, dest: Path)
    requires Acyclic(g)
    ensures Verdict(g, source, dest, true) == None
            <==> Acyclic(g[source := dest]) && Hop(g, dest, 100) == None
  {
    NewEdgeAcyclicIff(g, source, dest);
    assert Hop(g, dest, 0) == Some(dest);
    if Hop(g, dest, MAX_WALK) == None {
      forall n: nat | Hop(g, dest, n) == Some(source)
        ensures n < MAX_WALK
      {
        if n >= MAX_WALK { HopAdd(g, dest, MAX_WALK, n - MAX_WALK); }
      }
    }
  }

  // ----- Blog slug changes -----

  const BLOG_SLUG := "blog-slug"

  predicate AliasRefused(t: Table, oldPath: Path, newPath: Path, published: bool) {
    || (newPath in t && t[newPath].active && !(t[newPath].reason == BLOG_SLUG && t[newPath].dest == oldPath))
    || (published && oldPath in t && t[oldPath].reason != BLOG_SLUG)
  }

  /** Reclaim the new URL, repoint every old alias, alias the URL just given up. */
  function MoveAlias(t: Table, oldPath: Path, newPath: Path): Table {
    var freed := if newPath in t && t[newPath].reason == BLOG_SLUG then t - {newPath} else t;
    var repointed := map p | p in freed ::
      if freed[p].dest == oldPath && freed[p].reason == BLOG_SLUG then freed[p].(dest := newPath) else freed[p];
    repointed[oldPath :=
      if oldPath in repointed then repointed[oldPath].(dest := newPath, active := true)
      else Row(newPath, BLOG_SLUG, true)]
  }

  // ----- Runs -----

  datatype Op =
    | Save(source: Path, dest: Path, reason: string, active: bool, targetExists: bool)
    | Rename(previous: Path, path: Path, reason: string, targetExists: bool)
    | Remove(path: Path)
    | ChangeBlogSlug(oldPath: Path, newPath: Path, published: bool)

  ghost function Next(t: Table, op: Op): Table {
    match op
    case Save(s, d, reason, active, exists_) =>
      if Verdict(Edges(t), s, d, exists_) == None then t[s := Row(d, reason, active)] else t
    case Rename(s, d, reason, exists_) =>
      if d !in Edges(t) && Verdict(Edges(t), s, d, exists_) == None then t[s := Row(d, reason, true)] else t
    case Remove(p) => t - {p}
    case ChangeBlogSlug(oldPath, newPath, published) =>
      if oldPath == newPath || !published || AliasRefused(t, oldPath, newPath, published) then t
      else MoveAlias(t, oldPath, newPath)
  }

  ghost function Run(t: Table, ops: seq<Op>): Table
    decreases |ops|
  {
    if ops == [] then t else Run(Next(t, ops[0]), ops[1..])
  }

  lemma WriteKeepsAcyclic(t: Table, source: Path, row: Row)
    requires Acyclic(Edges(t)) && Verdict(Edges(t), source, row.dest, true) == None
    ensures Acyclic(Edges(t[source := row]))
  {
    if row.active {
      WalkRefusesExactlyCycles(Edges(t), source, row.dest);
      assert Edges(t[source := row]) == Edges(t)[source := row.dest];
    } else {
      DeadEndsKeepAcyclic(Edges(t), Edges(t[source := row]));
    }
  }

  lemma MoveKeepsAcyclic(t: Table, oldPath: Path, newPath: Path, published: bool)
    requires Acyclic(Edges(t)) && oldPath != newPath && published && !AliasRefused(t, oldPath, newPath, published)
    ensures Acyclic(Edges(MoveAlias(t, oldPath, newPath)))
  {
    DeadEndsKeepAcyclic(Edges(t), Edges(MoveAlias(t, oldPath, newPath)));
  }

  lemma StepKeepsAcyclic(t: Table, op: Op)
    requires Acyclic(Edges(t))
    ensures Acyclic(Edges(Next(t, op)))
  {
    match op
    case Save(s, d, reason, active, exists_) =>
      if Verdict(Edges(t), s, d, exists_) == None { WriteKeepsAcyclic(t, s, Row(d, reason, active)); }
    case Rename(s, d, reason, exists_) =>
      if Verdict(Edges(t), s, d, exists_) == None { WriteKeepsAcyclic(t, s, Row(d, reason, true)); }
    case Remove(p) =>
      DeadEndsKeepAcyclic(Edges(t), Edges(t - {p}));
    case ChangeBlogSlug(oldPath, newPath, published) =>
      if oldPath != newPath && published && !AliasRefused(t, oldPath, newPath, published) {
        MoveKeepsAcyclic(t, oldPath, newPath, published);
      }
  }

  /** Whatever the redirect manager, page renames and blog slug changes do, no loop ever exists. */
  lemma {:induction false} RunsStayAcyclic(t: Table, ops: seq<Op>)
    requires Acyclic(Edges(t))
    ensures Acyclic(Edges(Run(t, ops)))
    decreases |ops|
  {
    if ops != [] {
      StepKeepsAcyclic(t, ops[0]);
      RunsStayAcyclic(Next(t, ops[0]), ops[1..]);
    }
  }

  /** Starting from an empty table, a visitor to any path reaches one final page. */
  lemma EveryRedirectTerminates(ops: seq<Op>, p: Path) returns (hops: nat, target: Path)
    ensures var g := Edges(Run(map[], ops));
            hops <= |g| && Hop(g, p, hops) == Some(target) && target !in g
  {
    assert Acyclic(Edges(map[])) by {
      forall q, n: nat | n > 0 ensures Hop(Edges(map[]), q, n) != Some(q) {}
    }
    RunsStayAcyclic(map[], ops);
    hops, target := FinalTargetExists(Edges(Run(map[], ops)), p);
  }

  /** Renaming a page onto a path that nobody redirects is never refused as a loop. */
  lemma RenameNeverLoops(t: Table, previous: Path, path: Path)
    requires previous != path && path !in Edges(t)
    ensures Verdict(Edges(t), previous, path, true) == None
  {
    var g := Edges(t);
    forall n: nat
      ensures Hop(g, path, n) == if n == 0 then Some(path) else None
    {}
  }

  // ----- The table itself -----

  class RedirectTable {
    var rows: Table

    constructor ()
      ensures rows == map[]
    {
      rows := map[];
    }

    /** Follows active redirects from dest, at most a hundred, looking for source. */
    method CheckWalk(source: Path, dest: Path) returns (refused: Option<RedirectError>)
      requires source != dest
      ensures refused == Verdict(Edges(rows), source, dest, true)
    {
      var path := dest;
      ghost var g := Edges(rows);
      for i := 0 to MAX_WALK
        invariant i < MAX_WALK && Hop(g, dest, i) == Some(path)
        invariant forall k: nat | k < i :: Hop(g, dest, k) != Some(source)
      {
        if path == source {
          return Some(CreatesLoop);
        }
        HopAdd(g, dest, i, 1);
        assert path in g ==> Hop(g, path, 1) == Hop(g, g[path], 0);
        if path !in rows || !rows[path].active {
          forall n: nat | n > i
            ensures Hop(g, dest, n) == None
          {
            HopAdd(g, dest, i, n - i);
          }
          return None;
        }
        path := rows[path].dest;
        if i == MAX_WALK - 1 {
          return Some(ChainTooLong);
        }
      }
      assert false;
    }

    method PersistRedirect(sourcePath: string, destinationPath: string, reason: Option<string>, active: bool,
                           targetExists: bool)
      returns (r: Result<Row, RedirectError>)
      modifies this
      ensures r == Err(InvalidPath)
              <==> (forall s :: !Names(sourcePath, s)) || (forall d :: !Names(destinationPath, d))
      ensures r.Err? ==> rows == old(rows)
      ensures forall s, d | Names(sourcePath, s) && Names(destinationPath, d) ::
                && r == (match Verdict(Edges(old(rows)), s, d, targetExists)
                         case Some(e) => Err(e)
                         case None => Ok(Row(d, reason.GetOr("manual"), active)))
                && rows == Next(old(rows), Save(s, d, reason.GetOr("manual"), active, targetExists))
                && (r.Ok? ==> rows == old(rows)[s := Row(d, reason.GetOr("manual"), active)])
    {
      var source, dest := PathValue(sourcePath), PathValue(destinationPath);
      forall p ensures PathValue(sourcePath) == Ok(p) <==> Names(sourcePath, p) { AcceptedIff(sourcePath, p); }
      forall p ensures PathValue(destinationPath) == Ok(p) <==> Names(destinationPath, p) { AcceptedIff(destinationPath, p); }
      if source.Err? || dest.Err? {
        return Err(InvalidPath);
      }
      if source.value == dest.value {
        return Err(SameSourceAndDestination);
      }
      var refused := CheckWalk(source.value, dest.value);
      if refused.Some? {
        return Err(refused.value);
      }
      if !targetExists {
        return Err(UnknownDestination);
      }
      var row := Row(dest.value, reason.GetOr("manual"), active);
      rows := rows[source.value := row];
      return Ok(row);
    }

    method RemoveRedirect(path: Path)
      modifies this
      ensures rows == Next(old(rows), Remove(path)) == old(rows) - {path}
    {
      rows := rows - {path};
    }

    /** The redirect half of a blog slug change; a refusal rolls the transaction back. */
    method ChangeBlogSlug(oldPath: Path, newPath: Path, published: bool) returns (refused: Option<RedirectError>)
      requires oldPath != newPath
      modifies this
      ensures refused.Some? <==> AliasRefused(old(rows), oldPath, newPath, published)
      ensures refused.Some? || !published ==> rows == old(rows)
      ensures rows == Next(old(rows), Op.ChangeBlogSlug(oldPath, newPath, published))
    {
      if newPath in rows && rows[newPath].active
         && !(rows[newPath].reason == BLOG_SLUG && rows[newPath].dest == oldPath) {
        return Some(OccupiedByRedirect);
      }
      if published {
        if oldPath in rows && rows[oldPath].reason != BLOG_SLUG {
          return Some(OldUrlHasOwnRedirect);
        }
        if newPath in rows && rows[newPath].reason == BLOG_SLUG {
          rows := rows - {newPath};
        }
        rows := map p | p in rows ::
          if rows[p].dest == oldPath && rows[p].reason == BLOG_SLUG then rows[p].(dest := newPath) else rows[p];
        rows := rows[oldPath := if oldPath in rows then rows[oldPath].(dest := newPath, active := true)
                                else Row(newPath, BLOG_SLUG, true)];
      }
      return None;
    }
  }
}
