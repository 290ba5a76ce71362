/**
 Blog posts, their slugs and the aliases that keep old article URLs working.
 */
module BlogAliases {
  import opened Common
  import opened RedirectGraph
  import opened Redirects

  type Slug = string

  datatype Post = Post(slug: Slug, published: bool, publishedAt: Option<int>, revision: nat, content: string, seo: string)

  datatype Blog = Blog(posts: map<nat, Post>, redirects: Table)

  function BlogPath(slug: Slug): (p: Path)
    ensures |p| == 7 + |slug| && p[7..] == slug
  {
    "/blogs/" + slug
  }

  predicate IsBlogPath(p: Path) {
    "/blogs/" <= p
  }

  predicate Live(p: Post, now: int) {
    p.published && p.publishedAt.Some? && p.publishedAt.value <= now
  }

  predicate Taken(posts: map<nat, Post>, slug: Slug, except: Option<nat>) {
    exists id | id in posts :: except != Some(id) && posts[id].slug == slug
  }

  datatype BlogError = NotFound | Stale | SlugInUse | Reserved

  datatype Op =
    /** A new post; id is the one the database assigns. */
    | Create(id: nat, slug: Slug, content: string, publish: bool, now: int)
    /** A content save of an existing post; it keeps the slug. */
    | SaveContent(id: nat, revision: nat, content: string, publish: bool, now: int)
    /** An SEO save, which may move the post to another slug. */
    | SaveSeo(id: nat, revision: nat, slug: Slug, seo: string)
    /** Anything at all happening to redirects whose source is not a blog URL. */
    | Elsewhere(others: Table)

  /** The first publication sets the date; nothing ever clears it. */
  function PublicationDate(previous: Option<int>, publish: bool, now: int): Option<int> {
    if previous.Some? then previous else if publish then Some(now) else None
  }

  function SeoError(b: Blog, id: nat, revision: nat, slug: Slug): Option<BlogError> {
    if id !in b.posts then Some(NotFound)
    else
      var post := b.posts[id];
      if post.revision != revision then Some(Stale)
      else if slug == post.slug then None
      else if Taken(b.posts, slug, Some(id)) then Some(SlugInUse)
      else if AliasRefused(b.redirects, BlogPath(post.slug), BlogPath(slug), post.publishedAt.Some?) then Some(Reserved)
      else None
  }

  /** An SEO save goes through from the current revision, to its own slug or to one that nobody claims. */
  lemma SeoAcceptedIff(b: Blog, id: nat, revision: nat, slug: Slug)
    ensures SeoError(b, id, revision, slug).None?
            <==> && id in b.posts && b.posts[id].revision == revision
                 && (slug != b.posts[id].slug ==>
                       && (forall other | other in b.posts && other != id :: b.posts[other].slug != slug)
                       && UrlMayMove(b.redirects, "/blogs/" + b.posts[id].slug, "/blogs/" + slug, b.posts[id].publishedAt.Some?))
  {}

  /** The new URL is not redirected, or only to the old one as an alias; and the old one is free for an alias. */
  ghost predicate UrlMayMove(t: Table, oldPath: Path, newPath: Path, published: bool) {
    && (newPath in t ==> !t[newPath].active || t[newPath] == Row(oldPath, "blog-slug", true))
    && (published && oldPath in t ==> t[oldPath].reason == "blog-slug")
  }

  ghost function Step(b: Blog, op: Op): Blog {
    match op
    case Create(id, slug, content, publish, now) =>
      if id in b.posts || Taken(b.posts, slug, None) then b
      else b.(posts := b.posts[id := Post(slug, publish, PublicationDate(None, publish, now), 1, content, "")])
    case SaveContent(id, revision, content, publish, now) =>
      if id !in b.posts || b.posts[id].revision != revision then b
      else
        var p := b.posts[id];
        b.(posts := b.posts[id := p.(content := content, published := publish, revision := revision + 1,
                                     publishedAt := PublicationDate(p.publishedAt, publish, now))])
    case SaveSeo(id, revision, slug, seo) =>
      if SeoError(b, id, revision, slug).Some? then b
      else
        var p := b.posts[id];
        Blog(b.posts[id := p.(slug := slug, seo := seo, revision := revision + 1)],
             Next(b.redirects, Redirects.ChangeBlogSlug(BlogPath(p.slug), BlogPath(slug), p.publishedAt.Some?)))
    case Elsewhere(others) =>
      b.(redirects := map p | p in b.redirects.Keys + others.Keys && (IsBlogPath(p) ==> p in b.redirects)
                              && (!IsBlogPath(p) ==> p in others) ::
        if IsBlogPath(p) then b.redirects[p] else others[p])
  }

  /** Every change that leaves the blog URLs alone is such a step. */
  lemma ElsewhereIsAnything(b: Blog, t: Table)
    requires forall p | IsBlogPath(p) :: (p in t <==> p in b.redirects) && (p in t ==> t[p] == b.redirects[p])
    ensures Step(b, Elsewhere(t)) == Blog(b.posts, t)
  {
    assert Step(b, Elsewhere(t)).redirects == t;
  }

  /** For every slug under which some post has been publishable, the post that carried it. */
  type Owners = map<Slug, nat>

  function Touched(op: Op): Option<nat> {
    if op.Elsewhere? then None else Some(op.id)
  }

  /** Owners after a step that may have touched post id. */
  function Record(b: Blog, own: Owners, id: Option<nat>): Owners {
    if id.Some? && id.value in b.posts && b.posts[id.value].publishedAt.Some?
    then own[b.posts[id.value].slug := id.value]
    else own
  }

  /** Nobody else carries this post's slug, and a dated post owns its slug. */
  ghost predicate PostOk(b: Blog, own: Owners, id: nat) {
    id in b.posts ==>
      var p := b.posts[id];
      && !Taken(b.posts, p.slug, Some(id))
      && (p.slug in own ==> own[p.slug] == id)
      && (p.publishedAt.Some? ==> p.slug in own)
  }

  /** A slug is an alias exactly when its owner has moved on, and then it leads straight to the owner. */
  ghost predicate SlugOk(b: Blog, own: Owners, s: Slug) {
    && (s in own ==> own[s] in b.posts && b.posts[own[s]].publishedAt.Some?)
    && (BlogPath(s) in b.redirects <==> s in own && b.posts[own[s]].slug != s)
    && (BlogPath(s) in b.redirects ==>
          b.redirects[BlogPath(s)] == Row(BlogPath(b.posts[own[s]].slug), BLOG_SLUG, true))
  }

  ghost predicate Consistent(b: Blog, own: Owners) {
    && (forall id :: PostOk(b, own, id))
    && (forall s :: SlugOk(b, own, s))
  }

  /** No slug ever changes owner. */
  ghost predicate Extends(own: Owners, own': Owners) {
    forall s | s in own :: s in own' && own'[s] == own[s]
  }

  lemma BlogPathInjective(a: Slug, b: Slug)
    ensures BlogPath(a) == BlogPath(b) <==> a == b
  {
    assert BlogPath(a)[7..] == a && BlogPath(b)[7..] == b;
  }

  /** Recording a post that is already consistent changes nothing. */
  lemma RecordIdle(b: Blog, own: Owners, id: Option<nat>)
    requires Consistent(b, own)
    ensures Record(b, own, id) == own
  {
    if id.Some? {
      assert PostOk(b, own, id.value);
    }
  }

  // ----- Each operation keeps the blog consistent -----

  lemma CreateKeepsConsistent(b: Blog, own: Owners, op: Op)
    requires Consistent(b, own) && op.Create? && BlogPath(op.slug) !in b.redirects
    ensures var c := Step(b, op); var own' := Record(c, own, Some(op.id));
            Consistent(c, own') && Extends(own, own')
  {
    var c := Step(b, op);
    var own' := Record(c, own, Some(op.id));
    assert PostOk(b, own, op.id) && SlugOk(b, own, op.slug);
    if c != b {
      forall id ensures PostOk(c, own', id) {
        assert PostOk(b, own, id);
        if id in c.posts { TakenAfter(b.posts, op.id, c.posts[op.id], c.posts[id].slug, id); }
      }
      forall s ensures SlugOk(c, own', s) { assert SlugOk(b, own, s); }
    } else {
      RecordIdle(b, own, Some(op.id));
    }
  }

  /** Who else carries a slug after one post was written. */
  lemma TakenAfter(posts: map<nat, Post>, id: nat, post: Post, slug: Slug, except: nat)
    ensures Taken(posts[id := post], slug, Some(except))
            <==> (id != except && post.slug == slug) || (exists i | i in posts :: i != id && i != except && posts[i].slug == slug)
  {
    var posts' := posts[id := post];
    if i :| i in posts' && Some(except) != Some(i) && posts'[i].slug == slug {
      assert i == id || (i in posts && i != id && i != except && posts[i].slug == slug);
    }
    if i :| i in posts && i != id && i != except && posts[i].slug == slug {
      assert i in posts' && Some(except) != Some(i) && posts'[i].slug == slug;
    }
    if id != except && post.slug == slug {
      assert id in posts' && Some(except) != Some(id) && posts'[id].slug == slug;
    }
  }

  lemma SaveContentKeepsConsistent(b: Blog, own: Owners, op: Op)
    requires Consistent(b, own) && op.SaveContent?
    ensures var c := Step(b, op); var own' := Record(c, own, Some(op.id));
            Consistent(c, own') && Extends(own, own')
  {
    var c := Step(b, op);
    var own' := Record(c, own, Some(op.id));
    assert PostOk(b, own, op.id);
    if c != b {
      assert SlugOk(b, own, b.posts[op.id].slug);
      forall id ensures PostOk(c, own', id) {
        assert PostOk(b, own, id);
        if id in c.posts {
          TakenAfter(b.posts, op.id, c.posts[op.id], c.posts[id].slug, id);
          TakenAfter(b.posts, op.id, b.posts[op.id], c.posts[id].slug, id);
          assert b.posts[op.id := b.posts[op.id]] == b.posts;
        }
      }
      forall s ensures SlugOk(c, own', s) { assert SlugOk(b, own, s); }
    } else {
      RecordIdle(b, own, Some(op.id));
    }
  }

  lemma ElsewhereKeepsConsistent(b: Blog, own: Owners, op: Op)
    requires Consistent(b, own) && op.Elsewhere?
    ensures Consistent(Step(b, op), own)
  {
    var c := Step(b, op);
    forall id ensures PostOk(c, own, id) { assert PostOk(b, own, id); }
    forall s ensures SlugOk(c, own, s) {
      assert SlugOk(b, own, s);
      assert IsBlogPath(BlogPath(s));
    }
  }

  /** The row at each blog URL after a dated post moved from its slug to a free one. */
  lemma MovedAlias(b: Blog, own: Owners, id: nat, slug: Slug, s: Slug)
    requires Consistent(b, own) && id in b.posts && b.posts[id].publishedAt.Some? && slug != b.posts[id].slug
    requires SeoError(b, id, b.posts[id].revision, slug) == None
    ensures var t := MoveAlias(b.redirects, BlogPath(b.posts[id].slug), BlogPath(slug));
            && (BlogPath(s) in t <==> s != slug && (s == b.posts[id].slug || BlogPath(s) in b.redirects))
            && (BlogPath(s) in t ==> s in own)
            && (BlogPath(s) in t && own[s] == id ==> t[BlogPath(s)] == Row(BlogPath(slug), BLOG_SLUG, true))
            && (BlogPath(s) in t && own[s] != id ==> BlogPath(s) in b.redirects && t[BlogPath(s)] == b.redirects[BlogPath(s)])
    ensures slug in own ==> own[slug] == id
  {
    var was := b.posts[id].slug;
    BlogPathInjective(s, slug);
    BlogPathInjective(s, was);
    BlogPathInjective(slug, was);
    assert PostOk(b, own, id) && SlugOk(b, own, s) && SlugOk(b, own, slug) && SlugOk(b, own, was);
    if slug in own {
      assert PostOk(b, own, own[slug]);
      BlogPathInjective(b.posts[own[slug]].slug, was);
    }
    if BlogPath(s) in b.redirects {
      BlogPathInjective(b.posts[own[s]].slug, was);
    }
  }

  lemma SaveSeoKeepsConsistent(b: Blog, own: Owners, op: Op)
    requires Consistent(b, own) && op.SaveSeo?
    ensures var c := Step(b, op); var own' := Record(c, own, Some(op.id));
            Consistent(c, own') && Extends(own, own')
  {
    var c := Step(b, op);
    var own' := Record(c, own, Some(op.id));
    assert PostOk(b, own, op.id);
    if SeoError(b, op.id, op.revision, op.slug).Some? {
      RecordIdle(b, own, Some(op.id));
    } else {
      var post := b.posts[op.id];
      assert SlugOk(b, own, post.slug) && SlugOk(b, own, op.slug);
      BlogPathInjective(post.slug, op.slug);
      var moved := op.slug != post.slug;
      if moved && post.publishedAt.Some? { MovedAlias(b, own, op.id, op.slug, op.slug); }
      forall id ensures PostOk(c, own', id) {
        assert PostOk(b, own, id);
        if id in c.posts {
          TakenAfter(b.posts, op.id, c.posts[op.id], c.posts[id].slug, id);
          TakenAfter(b.posts, op.id, b.posts[op.id], c.posts[id].slug, id);
          assert b.posts[op.id := b.posts[op.id]] == b.posts;
        }
      }
      forall s ensures SlugOk(c, own', s) {
        assert SlugOk(b, own, s);
        if moved && post.publishedAt.Some? { MovedAlias(b, own, op.id, op.slug, s); }
      }
    }
  }

  /** A new slug may not be one that an old article URL still uses. */
  predicate Fresh(b: Blog, op: Op) {
    op.Create? ==> BlogPath(op.slug) !in b.redirects
  }

  lemma StepKeepsConsistent(b: Blog, own: Owners, op: Op)
    requires Consistent(b, own) && Fresh(b, op)
    ensures var own' := Record(Step(b, op), own, Touched(op));
            Consistent(Step(b, op), own') && Extends(own, own')
  {
    match op
    case Create(_, _, _, _, _) => CreateKeepsConsistent(b, own, op);
    case SaveContent(_, _, _, _, _) => SaveContentKeepsConsistent(b, own, op);
    case SaveSeo(_, _, _, _) => SaveSeoKeepsConsistent(b, own, op);
    case Elsewhere(_) => ElsewhereKeepsConsistent(b, own, op);
  }

  /**
   Creation checks slugs against posts only, not against aliases.  An accepted creation keeps
   the alias invariant exactly when its slug is not the source of an alias.
   */
  lemma CreationNeedsFreshSlug(b: Blog, own: Owners, op: Op)
    requires Consistent(b, own) && op.Create? && op.id !in b.posts && !Taken(b.posts, op.slug, None)
    ensures (exists own' :: Consistent(Step(b, op), own')) <==> BlogPath(op.slug) !in b.redirects
  {
    var c := Step(b, op);
    if BlogPath(op.slug) !in b.redirects {
      CreateKeepsConsistent(b, own, op);
      assert Consistent(c, Record(c, own, Some(op.id)));
    } else {
      forall own': Owners
        ensures !Consistent(c, own')
      {
        assert !(PostOk(c, own', op.id) && SlugOk(c, own', op.slug));
      }
    }
  }

  // ----- Resolving a slug -----

  predicate Answers(b: Blog, slug: Slug, id: nat, now: int) {
    id in b.posts && Live(b.posts[id], now) && b.posts[id].slug == slug
  }

  /** The join of an alias row with the live post it points to. */
  predicate AliasAnswers(b: Blog, slug: Slug, id: nat, now: int) {
    && id in b.posts && Live(b.posts[id], now)
    && BlogPath(slug) in b.redirects
    && b.redirects[BlogPath(slug)] == Row(BlogPath(b.posts[id].slug), BLOG_SLUG, true)
  }

  /** What a visitor of a slug deserves: the current slug of the post that owns it, if it is live. */
  function CurrentSlug(b: Blog, own: Owners, slug: Slug, now: int): Option<Slug> {
    if slug in own && own[slug] in b.posts && Live(b.posts[own[slug]], now) then Some(b.posts[own[slug]].slug)
    else None
  }

  lemma AnswersAreRight(b: Blog, own: Owners, slug: Slug, id: nat, now: int)
    requires Consistent(b, own)
    ensures Answers(b, slug, id, now) ==> CurrentSlug(b, own, slug, now) == Some(slug)
    ensures AliasAnswers(b, slug, id, now) ==> CurrentSlug(b, own, slug, now) == Some(b.posts[id].slug)
  {
    assert PostOk(b, own, id) && SlugOk(b, own, slug);
    if AliasAnswers(b, slug, id, now) {
      var owner := own[slug];
      BlogPathInjective(b.posts[owner].slug, b.posts[id].slug);
      assert PostOk(b, own, owner);
    }
  }

  lemma AnswersAreFound(b: Blog, own: Owners, slug: Slug, now: int)
    requires Consistent(b, own) && CurrentSlug(b, own, slug, now).Some?
    ensures Answers(b, slug, own[slug], now) || AliasAnswers(b, slug, own[slug], now)
  {
    assert SlugOk(b, own, slug);
  }

  lemma OnlyTheOwnerAnswers(b: Blog, own: Owners, slug: Slug, now: int)
    requires Consistent(b, own) && slug in own
    ensures own[slug] in b.posts
    ensures Live(b.posts[own[slug]], now) ==> Answers(b, slug, own[slug], now) || AliasAnswers(b, slug, own[slug], now)
    ensures forall j :: Answers(b, slug, j, now) ==> j == own[slug]
    ensures forall j :: AliasAnswers(b, slug, j, now) ==> j == own[slug]
  {
    assert SlugOk(b, own, slug);
    if Live(b.posts[own[slug]], now) { AnswersAreFound(b, own, slug, now); }
    forall j
      ensures Answers(b, slug, j, now) ==> j == own[slug]
      ensures AliasAnswers(b, slug, j, now) ==> j == own[slug]
    {
      assert PostOk(b, own, j);
      if AliasAnswers(b, slug, j, now) { BlogPathInjective(b.posts[own[slug]].slug, b.posts[j].slug); }
    }
  }

  // ----- Runs -----

  ghost function Run(b: Blog, ops: seq<Op>): Blog
    decreases |ops|
  {
    if ops == [] then b else Run(Step(b, ops[0]), ops[1..])
  }

  ghost predicate FreshRun(b: Blog, ops: seq<Op>)
    decreases |ops|
  {
    ops == [] || (Fresh(b, ops[0]) && FreshRun(Step(b, ops[0]), ops[1..]))
  }

  lemma {:induction false} RunKeepsConsistent(b: Blog, own: Owners, ops: seq<Op>) returns (own': Owners)
    requires Consistent(b, own) && FreshRun(b, ops)
    ensures Consistent(Run(b, ops), own') && Extends(own, own')
    decreases |ops|
  {
    if ops == [] {
      own' := own;
    } else {
      StepKeepsConsistent(b, own, ops[0]);
      own' := RunKeepsConsistent(Step(b, ops[0]), Record(Step(b, ops[0]), own, Touched(ops[0])), ops[1..]);
    }
  }

  lemma {:induction false} RunSplit(b: Blog, ops: seq<Op>, k: nat)
    requires k <= |ops|
    ensures Run(b, ops) == Run(Run(b, ops[..k]), ops[k..])
    ensures FreshRun(b, ops) ==> FreshRun(b, ops[..k]) && FreshRun(Run(b, ops[..k]), ops[k..])
    decreases k
  {
    if k == 0 {
      assert ops[k..] == ops;
    } else {
      assert ops[..k][1..] == ops[1..][..k - 1];
      RunSplit(Step(b, ops[0]), ops[1..], k - 1);
    }
  }

  const EMPTY := Blog(map[], map[])

  /** The operation goes through and publishes this post. */
  ghost predicate Publishes(b: Blog, op: Op, id: nat) {
    match op
    case Create(i, slug, _, publish, _) =>
      i == id && publish && id !in b.posts && forall j | j in b.posts :: b.posts[j].slug != slug
    case SaveContent(i, revision, _, publish, _) =>
      i == id && publish && id in b.posts && b.posts[id].revision == revision
    case SaveSeo(_, _, _, _) => false
    case Elsewhere(_) => false
  }

  /** Operation i of the run publishes the post for the first time. */
  ghost predicate FirstPublication(ops: seq<Op>, i: nat, id: nat) {
    && i < |ops| && Publishes(Run(EMPTY, ops[..i]), ops[i], id)
    && forall j | 0 <= j < i :: !Publishes(Run(EMPTY, ops[..j]), ops[j], id)
  }

  function DateOf(b: Blog, id: nat): Option<int> {
    if id in b.posts then b.posts[id].publishedAt else None
  }

  lemma RunOneMore(ops: seq<Op>, k: nat)
    requires k < |ops|
    ensures Run(EMPTY, ops[..k + 1]) == Step(Run(EMPTY, ops[..k]), ops[k])
  {
    RunSplit(EMPTY, ops[..k + 1], k);
    assert ops[..k + 1][..k] == ops[..k] && ops[..k + 1][k..] == [ops[k]];
    assert [ops[k]][1..] == [];
  }

  lemma StepDates(b: Blog, op: Op, id: nat)
    ensures DateOf(Step(b, op), id)
            == if DateOf(b, id).None? && Publishes(b, op, id) then Some(op.now) else DateOf(b, id)
  {}

  /** The date of a post is the moment of its first publication, for ever after. */
  lemma {:induction false} DatedIff(ops: seq<Op>, k: nat, id: nat)
    requires k <= |ops|
    ensures DateOf(Run(EMPTY, ops[..k]), id).None? ==> forall i | 0 <= i < k :: !Publishes(Run(EMPTY, ops[..i]), ops[i], id)
    ensures DateOf(Run(EMPTY, ops[..k]), id).Some? ==>
              exists i: nat :: i < k && FirstPublication(ops, i, id) && DateOf(Run(EMPTY, ops[..k]), id) == Some(ops[i].now)
  {
    if k > 0 {
      DatedIff(ops, k - 1, id);
      RunOneMore(ops, k - 1);
      StepDates(Run(EMPTY, ops[..k - 1]), ops[k - 1], id);
      if DateOf(Run(EMPTY, ops[..k - 1]), id).None? && Publishes(Run(EMPTY, ops[..k - 1]), ops[k - 1], id) {
        assert FirstPublication(ops, k - 1, id);
      }
    }
  }

  /** The post still answers for the slug: as its own, or through an alias that leads straight to it. */
  ghost predicate StillAnswers(b: Blog, id: nat, slug: Slug) {
    id in b.posts
    && (b.posts[id].slug == slug
        || ("/blogs/" + slug in b.redirects
            && b.redirects["/blogs/" + slug] == Row("/blogs/" + b.posts[id].slug, "blog-slug", true)))
  }

  /**
   In any run that creates posts under fresh slugs: a slug that a post carried at any moment from its
   first publication on keeps resolving, in one hop, to the slug the post carries now, whenever the
   post is published and its date has come; and no other post ever answers for it.
   */
  lemma EveryPublishedSlugResolves(ops: seq<Op>, i: nat, k: nat, id: nat, slug: Slug, now: int)
    requires FreshRun(EMPTY, ops) && i < k <= |ops| && Publishes(Run(EMPTY, ops[..i]), ops[i], id)
    requires var then_ := Run(EMPTY, ops[..k]); id in then_.posts && then_.posts[id].slug == slug
    ensures var b := Run(EMPTY, ops);
            && StillAnswers(b, id, slug)
            && (b.posts[id].published && FirstPublicationBy(ops, id, now) ==>
                  Answers(b, slug, id, now) || AliasAnswers(b, slug, id, now))
            && (forall j :: Answers(b, slug, j, now) ==> j == id)
            && (forall j :: AliasAnswers(b, slug, j, now) ==> j == id)
  {
    DatedIff(ops, k, id);
    var own := OwnedForGood(ops, k, id, slug);
    OnlyTheOwnerAnswers(Run(EMPTY, ops), own, slug, now);
    OwnerStillAnswers(Run(EMPTY, ops), own, slug);
    if FirstPublicationBy(ops, id, now) && Run(EMPTY, ops).posts[id].published {
      LiveByThen(ops, id, now);
    }
  }

  /** The post was first published no later than now. */
  ghost predicate FirstPublicationBy(ops: seq<Op>, id: nat, now: int) {
    exists i: nat :: FirstPublication(ops, i, id) && ops[i].now <= now
  }

  lemma LiveByThen(ops: seq<Op>, id: nat, now: int)
    requires FirstPublicationBy(ops, id, now)
    requires var b := Run(EMPTY, ops); id in b.posts && b.posts[id].published
    ensures Live(Run(EMPTY, ops).posts[id], now)
  {
    assert ops[..|ops|] == ops;
    DatedIff(ops, |ops|, id);
    var i: nat :| FirstPublication(ops, i, id) && ops[i].now <= now;
    var j: nat :| j < |ops| && FirstPublication(ops, j, id) && DateOf(Run(EMPTY, ops), id) == Some(ops[j].now);
    assert i == j;
  }

  lemma OwnerStillAnswers(b: Blog, own: Owners, slug: Slug)
    requires Consistent(b, own) && slug in own
    ensures StillAnswers(b, own[slug], slug)
  {
    assert SlugOk(b, own, slug);
  }

  lemma OwnedForGood(ops: seq<Op>, k: nat, id: nat, slug: Slug) returns (own: Owners)
    requires FreshRun(EMPTY, ops) && k <= |ops|
    requires var then_ := Run(EMPTY, ops[..k]);
             id in then_.posts && then_.posts[id].publishedAt.Some? && then_.posts[id].slug == slug
    ensures Consistent(Run(EMPTY, ops), own) && slug in own && own[slug] == id
  {
    RunSplit(EMPTY, ops, k);
    var before := RunKeepsConsistent(EMPTY, map[], ops[..k]);
    assert PostOk(Run(EMPTY, ops[..k]), before, id);
    own := RunKeepsConsistent(Run(EMPTY, ops[..k]), before, ops[k..]);
  }

  /** No alias chains: an alias never leads to the source of another row, and never from a live slug. */
  lemma AliasesNeverChain(ops: seq<Op>, slug: Slug)
    requires FreshRun(EMPTY, ops)
    ensures var b := Run(EMPTY, ops);
            BlogPath(slug) in b.redirects ==>
              && b.redirects[BlogPath(slug)].dest !in b.redirects
              && !Taken(b.posts, slug, None)
  {
    var b := Run(EMPTY, ops);
    var own := RunKeepsConsistent(EMPTY, map[], ops);
    assert SlugOk(b, own, slug);
    if BlogPath(slug) in b.redirects {
      var target := b.posts[own[slug]].slug;
      assert PostOk(b, own, own[slug]) && SlugOk(b, own, target);
      forall id | id in b.posts ensures b.posts[id].slug != slug { assert PostOk(b, own, id); }
    }
  }

  // ----- The service -----

  class EditorialService {
    var posts: map<nat, Post>
    const table: RedirectTable

    constructor (table: RedirectTable)
      ensures this.table == table && posts == map[]
    {
      this.table := table;
      posts := map[];
    }

    ghost function State(): Blog
      reads this, table
    {
      Blog(posts, table.rows)
    }

    method Create(id: nat, slug: Slug, content: string, publish: bool, now: int) returns (error: Option<BlogError>)
      requires id !in posts
      modifies this
      ensures State() == Step(old(State()), Op.Create(id, slug, content, publish, now))
      ensures error == if exists i | i in old(posts) :: old(posts)[i].slug == slug then Some(SlugInUse) else None
      ensures error.None? ==>
                posts == old(posts)[id := Post(slug, publish, if publish then Some(now) else None, 1, content, "")]
    {
      if exists i | i in posts :: posts[i].slug == slug {
        return Some(SlugInUse);
      }
      posts := posts[id := Post(slug, publish, PublicationDate(None, publish, now), 1, content, "")];
      return None;
    }

    method SaveContent(id: nat, revision: nat, content: string, publish: bool, now: int)
      returns (error: Option<BlogError>)
      modifies this
      ensures State() == Step(old(State()), Op.SaveContent(id, revision, content, publish, now))
      ensures error == if id !in old(posts) then Some(NotFound)
                       else if old(posts)[id].revision != revision then Some(Stale) else None
      ensures error.None? ==>
                var p := old(posts)[id];
                var date := if p.publishedAt.None? && publish then Some(now) else p.publishedAt;
                posts == old(posts)[id := Post(p.slug, publish, date, revision + 1, content, p.seo)]
    {
      if id !in posts {
        return Some(NotFound);
      }
      var p := posts[id];
      if p.revision != revision {
        return Some(Stale);
      }
      posts := posts[id := p.(content := content, published := publish, revision := revision + 1,
                              publishedAt := PublicationDate(p.publishedAt, publish, now))];
      return None;
    }

    method SaveSeo(id: nat, revision: nat, slug: Slug, seo: string) returns (error: Option<BlogError>)
      modifies this, table
      ensures State() == Step(old(State()), Op.SaveSeo(id, revision, slug, seo))
      ensures error == SeoError(old(State()), id, revision, slug)
      ensures error.None? ==>
                var p := old(posts)[id];
                posts == old(posts)[id := Post(slug, p.published, p.publishedAt, revision + 1, p.content, seo)]
    {
      if id !in posts {
        return Some(NotFound);
      }
      var p := posts[id];
      if p.revision != revision {
        return Some(Stale);
      }
      if slug != p.slug {
        if exists i | i in posts :: id != i && posts[i].slug == slug {
          assert Taken(posts, slug, Some(id));
          return Some(SlugInUse);
        }
        BlogPathInjective(slug, p.slug);
        var refused := table.ChangeBlogSlug(BlogPath(p.slug), BlogPath(slug), p.publishedAt.Some?);
        if refused.Some? {
          return Some(Reserved);
        }
      }
      posts := posts[id := p.(slug := slug, seo := seo, revision := revision + 1)];
      return None;
    }

    method ResolveSlug(slug: Slug, now: int) returns (r: Option<Slug>)
      ensures forall own :: Consistent(State(), own) ==> r == CurrentSlug(State(), own, slug, now)
    {
      ghost var b := State();
      forall own | Consistent(b, own)
        ensures forall id :: (Answers(b, slug, id, now) ==> CurrentSlug(b, own, slug, now) == Some(slug))
                          && (AliasAnswers(b, slug, id, now) ==> CurrentSlug(b, own, slug, now) == Some(b.posts[id].slug))
        ensures CurrentSlug(b, own, slug, now).Some? ==> exists id :: Answers(b, slug, id, now) || AliasAnswers(b, slug, id, now)
      {
        forall id { AnswersAreRight(b, own, slug, id, now); }
        if CurrentSlug(b, own, slug, now).Some? { AnswersAreFound(b, own, slug, now); }
      }
      if id :| id in posts && Live(posts[id], now) && posts[id].slug == slug {
        assert Answers(b, slug, id, now);
        return Some(slug);
      }
      if BlogPath(slug) in table.rows {
        var row := table.rows[BlogPath(slug)];
        if id :| id in posts && Live(posts[id], now) && row == Row(BlogPath(posts[id].slug), BLOG_SLUG, true) {
          assert AliasAnswers(b, slug, id, now);
          return Some(posts[id].slug);
        }
      }
      return None;
    }
  }
}
