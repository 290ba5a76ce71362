# Verified model of the Majestan backend

This project models the parts of the backend that keep state or run real algorithms, and proves
what they promise. SQL tables are maps and sequences, a service call or transaction is one atomic
step, and a call to another system is a parameter that says how it went.

| file | what it models |
|---|---|
| `RedirectGraph.dfy`, `Redirects.dfy` | the redirect table as a graph, and the operations that edit it |
| `BlogAliases.dfy` | blog posts, publication, revisions and the aliases of old slugs |
| `SeoConfigs.dfy` | versioned SEO configurations: optimistic revisions, the log, restoring, renaming |
| `Slugs.dfy`, `SlugRepair.dfy` | slugs, and the migration that repairs unsafe ones, in both directions |
| `RobotsMatch.dfy`, `Robots.dfy`, `RobotsParse.dfy`, `RobotsPolicy.dfy`, `RobotsPrint.dfy` | the robots.txt checker: matcher, parser and groups, what the lines mean without the parser, verdict, and a printer as the parser's partner |
| `ListingPath.dfy` | the parser and the printer of locality listing paths |
| `Schema.dfy`, `SectionSchema.dfy` | merging overrides into JSON-LD, stripping offers from it, and section pages, which are not stripped |
| `Otp.dfy` | one-time passwords |
| `SearchIndex.dfy` | the public search index |
| `ListingQuery.dfy`, `ListingPlaces.dfy`, `ListingFilters.dfy`, `ListingFeed.dfy`, `ListingSearch.dfy` | the combined feed: filters and what they mean, union, order, pages, loading |
| `Entities.dfy` | decoding of HTML entities |
| `ReviewSelection.dfy`, `ReviewCache.dfy` | choosing reviews, and fetching them once for all callers |
| `Guardrails.dfy` | the limiter of concurrent responses |
| `Inventory.dfy` | which statuses the public sees |
| `Common.dfy`, `Strings.dfy`, `Sorting.dfy` | shared datatypes, string helpers, the stable sort |

Services and tables that the code updates in place are classes whose methods are proved equal to a
specification step; the laws are proved about those steps, over whole runs. Functions that only
compute are functions.

## Where the code does not do what it seems to promise

The model follows the code. Where a promise fails, the project proves exactly when it holds.

- Creating a blog post does not look for an alias at its URL. Only the random suffix of a new slug
  keeps the aliases right (`BlogAliases.CreationNeedsFreshSlug`).
- Restoring a configuration does not remove settings, sections or image texts that were added after
  the snapshot, and does not keep an empty path of a property or project: it fills in the inventory's
  own (`SeoConfigs.RestoreBringsBack`), and fails where that is taken (`SeoConfigs.FilledPathCollides`).
- Restoring a listing page overwrites the FAQs of the configuration with those of the listing row, and
  takes that row's texts into the settings (`SeoConfigs.RestoreLosesFaqs`).
- Offers are stripped from the main page of off-market inventory but not from its section pages,
  which show whatever offer an override brings (`SectionSchema.SectionPageOfferFreeIff`).
- The slug migration does not look at existing redirects: it makes a loop exactly when its new
  edges, added to the former ones, close one (`SlugRepair.UpAcyclicIff`), which two repairs can do
  together (`SlugRepair.TwoRepairsLoop`). A roll-back restores only slugs whose old URL is ASCII and
  had no redirect (`SlugRepair.PropertiesRestoredIff`).
- The robots matcher does not escape a dollar in the middle of a pattern, which RFC 9309 in section
  2.2.3 reads as an ordinary character (`RobotsMatch.FaithfulIff`).
- The listing parser accepts a dash between the intent and a city name, a path nothing prints
  (`ListingPath.PrintParseIff`), and gives the pages of a city to an earlier one
  whose slug ends its own (`ListingPath.ParsePrintIff`).
- A place name stored with three blanks or dashes in a row, as in a dash between spaces, is not found by
  its own words (`ListingPlaces.PlaceFoundIff`).
- A schema override that names no node is appended again at every application when the graph has no
  default node (`Schema.IdempotentIff`).
- A rebuild of the search index ignores that clearing failed (`SearchIndex.RebuildIsRightIff`), and
  pages through properties without asking for an order, which is safe exactly up to one batch if the
  data layer adds no order of its own (`SearchIndex.AnyOrderIsRightIff`).
- The entity `&constructor;` is taken for a known name (`Entities.ConstructorLengthens`); it is the only
  reference that does not get shorter (`Entities.ReferenceShortensIff`).

## Model

| member | source | states |
|---|---|---|
| `Redirects.PathValueStable` | src/modules/seo-engine/seo-utils.ts:35-55 | what is accepted is accepted without the slashes after it: the path is the value up to its trailing slashes, it stands for itself, and a slash behind it changes nothing; so the loop walk compares like with like |
| `Redirects.AcceptedIff` | src/modules/seo-engine/seo-utils.ts:35-55 | a value is accepted as a path if and only if it is that path followed by slashes only, at most 512 characters of the listed kind without encoded slashes, backslashes, dots or zeros, and the path is the root or made of segments that are neither empty nor dots, the first of them outside the reserved areas |
| `Redirects.WalkRefusesExactlyCycles` | src/modules/seo-engine/seo-engine.service.ts:865-877 | on an acyclic table the hundred-step walk lets an edge through if and only if the table stays acyclic with it and the chain behind its destination has fewer than a hundred redirects |
| `Redirects.StepKeepsAcyclic` | src/modules/seo-engine/seo-engine.service.ts:860-912 | saving, renaming, removing and changing a blog slug each keep the active redirects free of cycles |
| `Redirects.RunsStayAcyclic` | src/modules/seo-engine/seo-engine.service.ts:860-912 | over every run of these operations, in any order and with any arguments, the active redirects never form a cycle |
| `Redirects.EveryRedirectTerminates` | src/modules/seo-engine/seo-engine.service.ts:865-877 | from an empty table, after any run, following redirects from any path ends at a path that is not redirected, after at most one hop per active row |
| `Redirects.RenameNeverLoops` | src/modules/seo-engine/seo-engine.service.ts:661-676 | renaming a page onto a path nobody redirects is never refused as a loop |
| `Redirects.RedirectTable.CheckWalk` | src/modules/seo-engine/seo-engine.service.ts:865-877 | the walk, a loop over the table, answers what the graph says: loop, chain too long, or nothing to object to |
| `Redirects.RedirectTable.PersistRedirect` | src/modules/seo-engine/seo-engine.service.ts:860-907 | invalid exactly when one of the two texts names no path of the site; otherwise, with the paths they name, trailing slashes dropped: equal, looping, over-long or unknown destinations change nothing and say why, and any other save writes exactly the one row |
| `Redirects.RedirectTable.RemoveRedirect` | src/modules/seo-engine/seo-engine.service.ts:908-912 | exactly the one row is gone |
| `Redirects.RedirectTable.ChangeBlogSlug` | src/modules/editorial/editorial.service.ts:237-283 | refused exactly when the new URL belongs to a foreign redirect or the old one has its own, and then nothing changes; otherwise the new URL is freed, all old aliases are repointed and the old URL becomes an alias |
| `RedirectGraph.NewEdgeAcyclicIff` | src/modules/seo-engine/seo-engine.service.ts:868-877 | the graph fact behind the walk: setting an edge closes a cycle if and only if its destination already leads back to its source |
| `RedirectGraph.DeadEndsKeepAcyclic` | src/modules/editorial/editorial.service.ts:270-282 | the graph fact behind blog slugs: removing edges, or repointing them at paths that lead nowhere, never makes a cycle |
| `RedirectGraph.FinalTargetExists` | src/modules/seo-engine/seo-engine.service.ts:868-877 | every chain of an acyclic table has one last path, reached in at most as many hops as there are edges |
| `RedirectGraph.ShortcutsKeepCycles` | src/database/migrations/1785500000000-SanitizePropertySlugs.ts:55-65 | repointing edges past one further edge neither makes nor breaks a cycle |
| `BlogAliases.StepKeepsConsistent` | src/modules/editorial/editorial.service.ts:60-292 | creating under a fresh slug, saving content, saving SEO and foreign redirect changes all keep: no two posts share a slug; a slug is an alias exactly when its owner moved away, and then leads straight to the owner; no slug changes owner |
| `BlogAliases.RunKeepsConsistent` | src/modules/editorial/editorial.service.ts:60-292 | the same over every run, and ownership of slugs only ever grows |
| `BlogAliases.CreationNeedsFreshSlug` | src/modules/editorial/editorial.service.ts:142-148 | creating a post keeps the invariant if and only if no redirect row sits at its URL; the code checks other posts only and relies on a random suffix |
| `BlogAliases.SeoAcceptedIff` | src/modules/editorial/editorial.service.ts:198-283 | an SEO save goes through if and only if it is made from the current revision and keeps the slug, or moves to one no other post has, whose URL is not redirected except as an alias of this post, and leaves a URL free for an alias |
| `BlogAliases.MovedAlias` | src/modules/editorial/editorial.service.ts:270-282 | what a slug change does to the alias of any slug: the new slug is reclaimed, the post's own old slugs lead to the new one in one hop, everybody else's are untouched |
| `BlogAliases.EveryPublishedSlugResolves` | src/modules/editorial/editorial.service.ts:185-292 | in every run with fresh slugs, a slug that a post carried at any moment from its first publication on still answers for that post, as its slug or by an alias straight to it, whenever the post is published and its date has come, and never for another post |
| `BlogAliases.DatedIff` | src/modules/editorial/editorial.service.ts:82-91 | the date of a post is the moment of its first successful publication in the run, for ever after, and there is none before |
| `BlogAliases.AliasesNeverChain` | src/modules/editorial/editorial.service.ts:270-282 | in every such run no alias leads to the source of another row, and no slug of a post is the source of one |
| `BlogAliases.AnswersAreRight` | src/modules/editorial/editorial.service.ts:185-196 | the two queries of a lookup can only find the current slug of the post that owns the slug asked for |
| `BlogAliases.AnswersAreFound` | src/modules/editorial/editorial.service.ts:185-196 | whenever the owner is live, one of the two queries finds it |
| `BlogAliases.EditorialService.Create` | src/modules/editorial/editorial.service.ts:143-151 | fails exactly when another post has the slug; the whole new state is that of the specification step |
| `BlogAliases.EditorialService.SaveContent` | src/modules/editorial/editorial.service.ts:133-141 | succeeds exactly from the current revision, keeps the slug, keeps the first publication date |
| `BlogAliases.EditorialService.SaveSeo` | src/modules/editorial/editorial.service.ts:197-292 | posts and redirects after the transaction, all error cases, and nothing changed on error |
| `BlogAliases.EditorialService.ResolveSlug` | src/modules/editorial/editorial.service.ts:185-196 | in a consistent state the lookup returns the current slug of the live owner, and nothing when there is none |
| `SeoConfigs.SaveExtends` | src/modules/seo-engine/seo-engine.service.ts:447-463 | a save appends to the history of its configuration and leaves every other history alone |
| `SeoConfigs.SaveAcceptedIff` | src/modules/seo-engine/seo-engine.service.ts:447-676 | a save goes through if and only if it is valid and made from the current revision, and the text it takes its path from, if any, names a path that no active redirect and no other configuration has, and from which, if a redirect was asked for, the former path can be redirected |
| `SeoConfigs.SaveAnswer` | src/modules/seo-engine/seo-engine.service.ts:462-676 | why a save is refused: an outdated revision first, then invalid input or a text that names no path, then a path that is taken, then a former path that cannot be redirected |
| `SeoConfigs.FirstSave` | src/modules/seo-engine/seo-engine.service.ts:552-660 | a first save keeps its content and listing row as revision one; its path is what the given text names, or the slug of the property or project if none is given, or none if there is nothing to take it from |
| `SeoConfigs.LaterSave` | src/modules/seo-engine/seo-engine.service.ts:552-660 | a later save takes the next revision; mentioned columns and entries are replaced, the others stay and none goes; the path is the one given, or filled in where it is cleared, or as before |
| `SeoConfigs.SaveFrame` | src/modules/seo-engine/seo-engine.service.ts:614-636 | every other configuration stays as it was, and the log gains the replaced state of an existing one |
| `SeoConfigs.RenameLeavesRedirect` | src/modules/seo-engine/seo-engine.service.ts:637-676 | a save that moves the path leaves exactly one redirect, from the former path, configured or the inventory's own, to the new one, and none if it was told not to or the path is the same |
| `SeoConfigs.PastIsKept` | src/modules/seo-engine/seo-engine.service.ts:614-631 | after any run of saves and restores, history entry r is what the configuration was at revision r; the log holds revisions 1 to current-1 once each, in order |
| `SeoConfigs.NoTwoSavesFromOneRevision` | src/modules/seo-engine/seo-engine.service.ts:460-463 | of two saves or restores that start from the same revision at most one succeeds, whatever happens in between |
| `SeoConfigs.RestoreBringsBack` | src/modules/seo-engine/seo-engine.service.ts:683-697 | a restore adds one revision and brings the listing row back; it keeps the path if and only if there was one or the property or project has no slug to fill in; every column is the snapshot's if and only if there is no listing row or its FAQs, which overwrite the configuration's, are the same; the overlaid entries (settings, sections, image texts) are the snapshot's if and only if none was added since and no text of the listing row replaces one |
| `SeoConfigs.OverlaidEntries` | src/modules/seo-engine/seo-engine.service.ts:691-695 | exactly when the texts of a listing row, spread over the snapshot and merged into the settings, leave the entries of the snapshot |
| `SeoConfigs.RestoreLosesFaqs` | src/modules/seo-engine/seo-engine.service.ts:691-695 | a listing page saved with FAQs [A] and locality FAQs [B], edited and restored has the FAQs [B]; [A] is lost |
| `SeoConfigs.FilledPathCollides` | src/modules/seo-engine/seo-engine.service.ts:497-566 | without a configured path the inventory's own is filled in, and the restore fails on it if and only if another configuration or an active redirect has that path |
| `SeoConfigs.RestoreUndone` | src/modules/seo-engine/seo-engine.service.ts:683-697 | a restore logs the state it replaces; restoring that version is refused if and only if it is a listing page without a path, and otherwise brings columns and entries back if and only if the replaced state's own listing row agrees with them and the restore had added no entry, and the path if and only if the restore had kept it |
| `SeoConfigs.RestoreAddsEntries` | src/modules/seo-engine/seo-engine.service.ts:691-695 | a restore removes no entry and adds those of the snapshot and, for a listing page, its two texts |
| `SeoConfigs.RenameRedirectAccepted` | src/modules/seo-engine/seo-engine.service.ts:640-676 | the redirect that a rename leaves behind is never refused and is the one the redirect manager would write |
| `SeoConfigs.SaveKeepsAcyclic` | src/modules/seo-engine/seo-engine.service.ts:661-676 | so saving and restoring configurations keeps the redirects acyclic |
| `SeoConfigs.RunKeepsPaths` | src/modules/seo-engine/seo-engine.service.ts:497-566 | over every run stored paths are in normal form and no two configurations claim one path |
| `SeoConfigs.SavedPathIsReached` | src/modules/seo-engine/seo-engine.service.ts:552-676 | after a save with a path, given or filled in from the inventory, the path is the configuration's and is not redirected; after a rename the former path leads to it in one hop |
| `SeoConfigs.SeoEngineService.PersistConfig` | src/modules/seo-engine/seo-engine.service.ts:447-677 | log, configuration and redirects after a save, each error case, and no change on error |
| `SeoConfigs.SeoEngineService.RestoreVersion` | src/modules/seo-engine/seo-engine.service.ts:683-697 | refuses unknown versions, removed configurations, stale revisions, and listing pages without a row or a path; otherwise saves the snapshot, with its listing row spread over it, over the current record |
| `Slugs.SlugsAreSafe` | src/modules/properties/utils/property-slug.util.ts:4-11 | a slug is empty or consists of runs of lower-case letters and digits joined by single dashes |
| `Slugs.SafeSlugsAreFixed` | src/modules/properties/utils/property-slug.util.ts:4-11 | slugs that are already safe stay as they are |
| `SlugRepair.PlanSlugRepairs` | src/database/migrations/1785500000000-SanitizePropertySlugs.ts:12-23 | the loop over rows with its growing set of used slugs computes the plan |
| `SlugRepair.PlanIsSound` | src/database/migrations/1785500000000-SanitizePropertySlugs.ts:12-23 | each repair renames an unsafe slug of the table to its safe form; the new slugs are pairwise distinct and none is a taken slug or path |
| `SlugRepair.PlanIsComplete` | src/database/migrations/1785500000000-SanitizePropertySlugs.ts:16-20 | each row is repaired or had a reason to be passed over: already safe, empty safe form, or the safe form is used |
| `SlugRepair.PlanIsRenaming` | src/database/migrations/1785500000000-SanitizePropertySlugs.ts:42-45 | old and new slugs of a plan never overlap |
| `SlugRepair.RepairAcyclicIff` | src/database/migrations/1785500000000-SanitizePropertySlugs.ts:56-65 | one repair keeps the redirects acyclic if and only if the new URL does not already lead to the old one; the migration does not check this |
| `SlugRepair.UpAcyclicIff` | src/database/migrations/1785500000000-SanitizePropertySlugs.ts:46-66 | a whole upgrade leaves the redirects free of cycles if and only if its new edges, old URL to new URL for each repair, added to the former ones all at once close none |
| `SlugRepair.UpKeepsAcyclic` | src/database/migrations/1785500000000-SanitizePropertySlugs.ts:46-66 | in particular when the redirects had no cycle and no new URL is an active redirect source |
| `SlugRepair.TwoRepairsLoop` | src/database/migrations/1785500000000-SanitizePropertySlugs.ts:46-66 | two repairs whose new URLs each redirect to the other's old URL end in a loop, although neither new URL leads to its own old one |
| `SlugRepair.TwoRepairsLoopInstance` | src/database/migrations/1785500000000-SanitizePropertySlugs.ts:12-66 | for instance the slugs `p.q` and `r.s` with redirects from `/p-q` to `/r.s` and from `/r-s` to `/p.q`: all four are paths in normal form, the migration plans just these two repairs, and the upgrade ends in a loop |
| `SlugRepair.NothingLeadsToOldUrls` | src/database/migrations/1785500000000-SanitizePropertySlugs.ts:55-59 | after the upgrade former destinations are repointed rather than chained: only a row at the new URL itself may still lead to an old URL |
| `SlugRepair.UpAtOld` | src/database/migrations/1785500000000-SanitizePropertySlugs.ts:60-65 | the row at an old URL leads to the new URL, whichever other repairs run |
| `SlugRepair.UpElsewhere` | src/database/migrations/1785500000000-SanitizePropertySlugs.ts:56-59 | every other row changes at most its destination, from the old URL of one repair to its new one |
| `SlugRepair.UpConfig` | src/database/migrations/1785500000000-SanitizePropertySlugs.ts:48-52 | a configured path follows its property, as one revision; every other configuration stays as it was |
| `SlugRepair.LinksAreTheRepairs` | src/database/migrations/1785500000000-SanitizePropertySlugs.ts:70-72 | the rows a roll-back reads are exactly the repairs whose old URL is ASCII and had no row before |
| `SlugRepair.RowRoundTrip` | src/database/migrations/1785500000000-SanitizePropertySlugs.ts:31-87 | up then down, for a single redirect row: it is there again, and equal, exactly under the stated condition |
| `SlugRepair.RedirectsRestoredIff` | src/database/migrations/1785500000000-SanitizePropertySlugs.ts:31-87 | up then down restores the redirects if and only if every former row survives, a condition on the rows at old URLs and on rows that led to new ones |
| `SlugRepair.RedirectsRestored` | src/database/migrations/1785500000000-SanitizePropertySlugs.ts:31-87 | in particular when no old URL was a redirect source and no new URL a destination |
| `SlugRepair.PlansArePlanned` | src/database/migrations/1785500000000-SanitizePropertySlugs.ts:36-45 | the plan that the upgrade makes meets what the round trips ask of a plan |
| `SlugRepair.PropertyRoundTrip` | src/database/migrations/1785500000000-SanitizePropertySlugs.ts:49-77 | up then down restores the slug of a repaired property if and only if its old URL is ASCII and had no redirect; others never change |
| `SlugRepair.PropertiesRestoredIff` | src/database/migrations/1785500000000-SanitizePropertySlugs.ts:49-77 | and so all slugs if and only if every repair is reversible |
| `SlugRepair.ConfigPathRestoredIff` | src/database/migrations/1785500000000-SanitizePropertySlugs.ts:50-80 | up then down restores a configured path if and only if the repairs that moved it are reversible |
| `SlugRepair.SanitizePropertySlugs.ApplyUp` | src/database/migrations/1785500000000-SanitizePropertySlugs.ts:31-67 | properties, configurations and redirects after the upgrade loop |
| `SlugRepair.SanitizePropertySlugs.ApplyDown` | src/database/migrations/1785500000000-SanitizePropertySlugs.ts:69-87 | properties, configurations and redirects after the roll-back loop |
| `RobotsMatch.MatcherMeansPattern` | src/modules/seo-engine/seo-quality.ts:73-77 | splitting at stars agrees with the declarative meaning of a pattern (section 2.2.3 of RFC 9309): a star spells any text, a final dollar the end, everything else itself, and without the dollar any continuation is allowed |
| `RobotsMatch.FaithfulIff` | src/modules/seo-engine/seo-quality.ts:73-77 | a pattern matches exactly the URLs it should if and only if it has no dollar before its end (the dollar is not escaped) |
| `RobotsMatch.InnerDollarDiffers` | src/modules/seo-engine/seo-quality.ts:74-76 | for every pattern with such a dollar, a URL on which the matcher is wrong |
| `RobotsMatch.MatchExtends` | src/modules/seo-engine/seo-quality.ts:73-77 | a pattern without a dollar that matches a URL matches every extension of it |
| `Robots.AllowedIff` | src/modules/seo-engine/seo-quality.ts:72-79 | a URL is allowed if and only if no rule applies, or some applying allow has at least as many characters other than star and dollar as every applying disallow (section 2.2.2 of RFC 9309) |
| `Robots.EffectiveAre` | src/modules/seo-engine/seo-quality.ts:68-71 | the rules an agent obeys are exactly those of the groups that name it, or, when none does, of the groups that name `*` (section 2.2.1 of RFC 9309) |
| `Robots.PermitsIff` | src/modules/seo-engine/seo-quality.ts:68-79 | the verdict on a URL told by memberships alone: no rule the agent obeys matches it, or some matching allow is at least as specific as every matching disallow |
| `RobotsParse.ParseMeans` | src/modules/seo-engine/seo-quality.ts:48-66 | a file is refused for its first bad line: malformed, an empty agent, a rule before any agent, or a site-wide block; otherwise an agent and a rule share a group if and only if some line names the agent, a later one is the rule, and no agent line behind a rule stands between them |
| `RobotsParse.ObeysLines` | src/modules/seo-engine/seo-quality.ts:48-71 | so the rules an agent obeys can be told from the lines alone |
| `RobotsParse.LineReads` | src/modules/seo-engine/seo-quality.ts:52-62 | blanks around a line and around its colon and the case of its key make no difference to what it says |
| `RobotsParse.CommentSaysNothing` | src/modules/seo-engine/seo-quality.ts:53 | neither does a comment |
| `Robots.OrderIrrelevant` | src/modules/seo-engine/seo-quality.ts:72-79 | the decision depends on the set of rules only |
| `Robots.SplitGroupIrrelevant` | src/modules/seo-engine/seo-quality.ts:68-71 | splitting a group into two with the same agents changes the rules of no agent (section 2.2.1 of RFC 9309) |
| `Robots.ParseRobots` | src/modules/seo-engine/seo-quality.ts:48-66 | the loop over lines computes the parse, with the first error in line order |
| `RobotsPolicy.AcceptedProtectsFromEveryone` | src/modules/seo-engine/seo-quality.ts:80-86 | an accepted file keeps every crawler name whatever, not only the names that were checked, out of the four private paths and lets it onto the three public ones, by the groups and rules themselves |
| `RobotsPolicy.AcceptedIff` | src/modules/seo-engine/seo-quality.ts:48-86 | a file is accepted if and only if it parses, some group names `*`, and every crawler is kept out of the private paths and let onto the public ones by the groups and rules themselves |
| `RobotsPolicy.UnnamedHasNoGroup` | src/modules/seo-engine/seo-quality.ts:68-71 | a crawler that no group names has no group of its own |
| `RobotsPolicy.ValidateRobotsPolicy` | src/modules/seo-engine/seo-quality.ts:48-86 | accepts exactly the files that parse, have a default group and protect every checked agent; otherwise reports the parse error, the missing group, or an agent for which the complaint is true |
| `RobotsPrint.ParsePrint` | src/modules/seo-engine/seo-quality.ts:48-66 | the parser reads every canonical list of groups back exactly as it was printed |
| `ListingPath.TypeSlugsAreGood` | src/modules/seo-engine/seo-utils.ts:14-23 | the eight type words are pairwise distinct, start with a letter and contain nothing an intent could start with |
| `ListingPath.ParsePrintIff` | src/modules/seo-engine/seo-engine.service.ts:970-1016 | a printed path, of a city or of a locality, parses to the type, intent, city and locality it was printed from if and only if its place has a text, no earlier city's slug equals or ends the place, and the locality has a slug that no earlier locality of the city shares |
| `ListingPath.ParsePathIff` | src/modules/seo-engine/seo-engine.service.ts:970-1012 | the same for every path that spells a type or all types, sale or rent, and a place, with or without a number of bedrooms in front: it parses to exactly that type, intent, city, locality and number if and only if no earlier row gets in the way |
| `ListingPath.ParsePrint` | src/modules/seo-engine/seo-engine.service.ts:2160-2165 | in particular whenever city slugs are neither equal to nor ends of one another and localities are distinct within a city |
| `ListingPath.SuffixCityTakesOver` | src/modules/seo-engine/seo-engine.service.ts:982-987 | the pages of a city never parse back to it when an earlier city's slug ends its own |
| `ListingPath.SecondWordTakesOver` | src/modules/seo-engine/seo-engine.service.ts:982-987 | for instance a city named with two words after one named with the second |
| `ListingPath.NewYorkIsLost` | src/modules/seo-engine/seo-engine.service.ts:982-987 | such as New York after York |
| `Slugs.SlugOfTwoWords` | src/modules/seo-engine/seo-utils.ts:60-67 | the slug of a name of two words is the words in lower case, joined by a dash |
| `ListingPath.RivalsNameEachOther` | src/modules/seo-engine/seo-engine.service.ts:982-987 | two cities compete for one place only if the slug of one equals or ends that of the other |
| `ListingPath.SplitRejoins` | src/modules/seo-engine/seo-engine.service.ts:971-974 | type, intent and place of an accepted path put together are the path |
| `ListingPath.PrintParseIff` | src/modules/seo-engine/seo-engine.service.ts:970-1016 | reprinting the parse of an accepted typed path without a bedroom prefix gives the path back if and only if its place does not start with a dash |
| `Schema.MergeLookup` | src/modules/seo-engine/seo-engine.service.ts:2089-2097 | each key of a merge holds the patch's value, merged into the base where both are objects, or else what the base had |
| `Schema.PatchLeavesWin` | src/modules/seo-engine/seo-engine.service.ts:2089-2097 | at every key path where the patch has a leaf the merge has that leaf |
| `Schema.UntouchedPathsKept` | src/modules/seo-engine/seo-engine.service.ts:2089-2097 | every path of the base that the patch does not touch keeps its value, base values under patch objects being objects or absent |
| `Schema.MergeIdempotent` | src/modules/seo-engine/seo-engine.service.ts:2089-2097 | merging the same patch twice equals merging it once, whatever the base |
| `Schema.NodesSurvive` | src/modules/seo-engine/seo-engine.service.ts:2067-2087 | applying any list of overrides drops no node, moves none, and changes no key that no override mentions |
| `Schema.OverrideTakesEffect` | src/modules/seo-engine/seo-engine.service.ts:2074-2086 | an override changes exactly the first node with the `@id` it names, or else the `@type`, or else the first listing or web page, or adds one; each of its leaves can be read back there and every other node is as it was |
| `Schema.EveryPatchTakesEffect` | src/modules/seo-engine/seo-engine.service.ts:2067-2087 | every patch of a list takes effect: each of its leaves whose first key no later patch mentions can be read back at some node of the result |
| `Schema.ApplyInOrder` | src/modules/seo-engine/seo-engine.service.ts:2067-2087 | applying two lists one after the other is applying them as one, and a list of one patch is that patch |
| `Schema.NamedPatchIdempotent` | src/modules/seo-engine/seo-engine.service.ts:2076-2085 | an override that names an `@id` or `@type` is idempotent on every graph of objects |
| `Schema.IdempotentIff` | src/modules/seo-engine/seo-engine.service.ts:2076-2085 | an override is idempotent on all graphs if and only if it names a node; an unnamed one can be appended again and again |
| `Schema.SchemaGraph.ApplySchemaOverrides` | src/modules/seo-engine/seo-engine.service.ts:2067-2087 | the loop that merges into the graph or extends it applies all the patches in order, and each leaf of a patch that no later patch touches can be read back in the graph |
| `Schema.OffMarketIsOfferFree` | src/modules/seo-engine/seo-engine.service.ts:1933-1952 | on the main page of off-market inventory, whatever an editor saved, the emitted graph has no `offers` or `availability` key at any depth and no array element typed Offer or AggregateOffer |
| `SectionSchema.SectionPageOfferFreeIff` | src/modules/seo-engine/seo-engine.service.ts:2030-2064 | a section page applies its override without the strip, off the market too: it is free of offers if and only if the override leaves the two bare nodes of such a page (their types and nothing else) free of them, whatever texts the page has |
| `SectionSchema.SectionPatchOfferFreeIff` | src/modules/seo-engine/seo-engine.service.ts:2060-2064 | for an override that is a single patch: if and only if that patch has no offer in it |
| `SectionSchema.SectionPageShowsOffers` | src/modules/seo-engine/seo-engine.service.ts:2060-2064 | a WebPage override with an `offers` key puts it on the section page, for a sold property as for any other |
| `SectionSchema.OverridesOfferFreeIff` | src/modules/seo-engine/seo-engine.service.ts:2067-2087 | a list of overrides on any graph without offers shows an offer if and only if it does on the same nodes reduced to `@id` and `@type` |
| `SectionSchema.PatchOfferFreeIff` | src/modules/seo-engine/seo-engine.service.ts:2074-2086 | one override on any graph without offers shows an offer if and only if the override itself has one |
| `SectionSchema.CleanOverridesSuffice` | src/modules/seo-engine/seo-engine.service.ts:2067-2087 | a list of overrides none of which has an offer never shows one |
| `SectionSchema.SpreadingUndoesOffers` | src/modules/seo-engine/seo-engine.service.ts:2089-2097 | an object merged into a list of offers spreads it into an object, in which they are no list elements any more |
| `SectionSchema.MergeOfferFreeIff` | src/modules/seo-engine/seo-engine.service.ts:2089-2097 | merged into a value without offers a patch shows exactly the offers it brings |
| `SectionSchema.MergeIntoNothing` | src/modules/seo-engine/seo-engine.service.ts:2089-2097 | a patch merged into an empty object is the patch |
| `Schema.StripIdleIff` | src/modules/seo-engine/seo-engine.service.ts:1936-1950 | the strip leaves a value alone if and only if it is already free of offers |
| `Schema.StripIdempotent` | src/modules/seo-engine/seo-engine.service.ts:1936-1950 | stripping twice is stripping once |
| `Schema.StripKeepsPaths` | src/modules/seo-engine/seo-engine.service.ts:1944-1950 | at any path of other keys the stripped value has the stripped value that was there |
| `Schema.StripKeepsOrder` | src/modules/seo-engine/seo-engine.service.ts:1937-1943 | the elements of a stripped array are the surviving elements, stripped, in their order, and nothing else |
| `Schema.KeptMembers` | src/modules/seo-engine/seo-engine.service.ts:1939-1942 | the surviving elements are exactly those not typed Offer or AggregateOffer |
| `Otp.RunKeepsInv` | src/modules/auth/otp.service.ts:40-114 | over every run on a clock that does not go back: rows of one key are at least a minute apart and all but the last are used or superseded, no hour holds more than five, and counters agree with the log of outcomes |
| `Otp.IssuingIsLimited` | src/modules/auth/otp.service.ts:92-114 | in every run and every hour at most five passwords exist per phone and purpose, and any two are at least sixty seconds apart, although time passes between check and insert |
| `Otp.RequestAnswer` | src/modules/auth/otp.service.ts:40-60 | after any run a request is turned away if and only if a row of its key is less than 60 s old or five were created within the hour; any other gets a row if its message is sent |
| `Otp.GuessesAreBudgeted` | src/modules/auth/otp.service.ts:76-90 | in every run each row is accepted at most once and fails at most five compares; the attempts of all rows sum to the failed compares, at most five per row issued |
| `Otp.AcceptedIff` | src/modules/auth/otp.service.ts:62-90 | after any run a verification succeeds on a row if and only if that row is the last one issued for its phone and purpose, the guess is its code, it has not expired, was never accepted and has failed fewer than five times |
| `Otp.AcceptedIffIssued` | src/modules/auth/otp.service.ts:40-90 | after any run a guess is accepted on the row a given request was answered with if and only if it is the code of that request, no later request for the key was answered, at most 900 s (registration) or 300 s (login) passed since that request computed the expiry, and the row was never accepted and failed fewer than five guesses |
| `Otp.VerifyAnswer` | src/modules/auth/otp.service.ts:62-90 | the answer to any guess after any run: the last row of the key decides, as used, expired, locked, accepted or wrong, in this order; the fifth failure locks it |
| `Otp.IssuedByRequest` | src/modules/auth/otp.service.ts:40-60 | the row a request was answered with carries its phone, purpose and code, its moment of creation and an expiry 900 s or 300 s after the moment it was computed at, for ever after |
| `Otp.NewestIsLast` | src/modules/auth/otp.service.ts:68-73 | the newest open row is the last row issued |
| `Otp.AcceptedInTime` | src/modules/auth/otp.service.ts:41-47 | a code is accepted only within fifteen minutes (registration) or five minutes (login) of the creation of its row |
| `Otp.OtpService.EnforceResendLimits` | src/modules/auth/otp.service.ts:92-114 | limited exactly by the cooldown on the newest row or five rows since an hour ago |
| `Otp.OtpService.RequestOtp` | src/modules/auth/otp.service.ts:40-60 | rows and outcome of a request: limited or unsent leaves the table alone, otherwise open rows are superseded and one is added |
| `Otp.OtpService.VerifyOtp` | src/modules/auth/otp.service.ts:62-90 | rows and outcome of a verification, in all six cases |
| `SearchIndex.IndexingRestores` | src/modules/search/search.service.ts:244-273 | however one row changed, looking at that row again makes the index equal to the documents of the public rows |
| `SearchIndex.IndexFollowsDatabase` | src/modules/search/search.service.ts:244-331 | after any run of row changes, indexing, deletions and rebuilds, each of which may fail or stop early and page through any orders, the index is right at every row whose last change it saw; with nothing pending the two are equal |
| `SearchIndex.IndexedRowIsShown` | src/modules/search/search.service.ts:244-331 | from the moment a row is indexed, and until it is changed or deleted or a rebuild starts, the index shows it as it is if it is an available, sold or rented property that is approved or a published or booked project, and otherwise not at all |
| `SearchIndex.RebuiltIndexShowsAll` | src/modules/search/search.service.ts:333-397 | after a whole rebuild over a cleared index and one stable order the same is true of every row |
| `SearchIndex.StableOrderVisitsOnce` | src/modules/search/search.service.ts:375-393 | over one stable order the batches of 500 put together are that order, so each visible row is visited once |
| `SearchIndex.RebuildIsRightIff` | src/modules/search/search.service.ts:333-397 | from any prior index, in whatever order each query returned the rows and after however many batches, the index is exactly the public documents if and only if nothing stale stayed behind (a failed clearing is ignored) and every public row was fetched by some query or was right already |
| `SearchIndex.StableRebuildIsRightIff` | src/modules/search/search.service.ts:333-364 | over one stable order: if and only if clearing succeeded or the index held no document of a row that is no longer public |
| `SearchIndex.AnyOrderIsRightIff` | src/modules/search/search.service.ts:376-382 | without a stable order, which the property query does not ask for and the data layer may add, a rebuild is right whatever the orders are if and only if one batch holds all public rows |
| `SearchIndex.UnstableOrderMissesRows` | src/modules/search/search.service.ts:376-382 | with more rows than that, orders over which a public row is never fetched |
| `SearchIndex.SearchService.IndexOne` | src/modules/search/search.service.ts:244-273 | the index after a property or project was looked at: replaced, removed, or as before when disabled or failing |
| `SearchIndex.SearchService.Delete` | src/modules/search/search.service.ts:268-273 | exactly the one document is gone, or nothing changed |
| `SearchIndex.SearchService.ReindexAll` | src/modules/search/search.service.ts:366-397 | refuses when disabled; stops at the first batch the index refuses with the batches before it applied; otherwise terminates with all of them applied and returns the number of public rows |
| `SearchIndex.SearchService.AddBatches` | src/modules/search/search.service.ts:372-393 | the loop itself, with its offset, its count and its two exits |
| `ListingFeed.PropertyListingsAre` | src/modules/properties/property-listings.service.ts:139-147 | join fan-out disappears: the distinct property query yields the listing of each property with a matching joined row, and nothing else |
| `ListingFeed.ProjectListingsAre` | src/modules/properties/property-listings.service.ts:148-156 | grouping yields one listing for each project with a matching unit, valued over exactly its matching units |
| `ListingFeed.ExtremeIsBest` | src/modules/properties/property-listings.service.ts:153 | the extreme of a group is one of its values, missing only if all are, and none is better in the sort direction |
| `ListingFeed.SortValueIs` | src/modules/properties/property-listings.service.ts:130-156 | the two area options sort by area, the others by price or, for projects to rent, monthly rent; a project stands at the least such value of its matching units when sorting from low to high and at the greatest from high to low, and has none only if all of them lack one |
| `ListingFeed.EachListingOnce` | src/modules/properties/property-listings.service.ts:139-176 | the feed holds each matching property and project exactly once, under one key each, and nothing else |
| `ListingFeed.FeedIsSorted` | src/modules/properties/property-listings.service.ts:130-175 | known values rise along the feed for the two low-to-high options and fall for the two high-to-low ones, with missing values last; among equals, and without an option, the newer come first, then projects, then larger ids |
| `ListingFeed.OneSortedList` | src/modules/properties/property-listings.service.ts:163-175 | ties are broken totally: in whatever order the united rows arrive there is only one sorted list, so every page is cut from the same one |
| `ListingFeed.PagesPartition` | src/modules/properties/property-listings.service.ts:161-176 | for every page size the pages put end to end are the list |
| `ListingFeed.FeedIsPublic` | src/modules/properties/property-listings.service.ts:36-124 | a property in the feed is available, sold or rented, and approved, and passes all filters with one of its localities; a project is published or booked and has one unit that passes all filters at once |
| `ListingFeed.JoinRowsAre` | src/modules/properties/properties.service.ts:265-269 | the joins show a property with each of its localities, or with none when it has none, and with no other |
| `ListingFeed.SortValueInRange` | src/modules/properties/property-listings.service.ts:75-89 | the value a listing is sorted by lies in the range asked for, of areas for the two area options and of prices otherwise; for projects too, whose value is taken over the units that passed |
| `ListingPlaces.PlaceFoundIff` | src/modules/properties/properties.service.ts:45-55 | a stored place name matches a typed one if and only if both have the same words, whatever their case and whatever blanks and dashes the typed one has, and the stored one has only spaces and dashes between its words, at most two together, and none but spaces around them |
| `ListingPlaces.SpacedDashIsLost` | src/modules/properties/properties.service.ts:45-55 | a name stored with a dash between two spaces is not found by its own two words |
| `ListingFilters.PropertyMatchesIff` | src/modules/properties/properties.service.ts:171-316 | though the filters look at joined rows, a property is found if and only if it is public and offers everything asked for: type, mode, text, one of the price ranges, price, area, bedrooms, condition, facing, furnishing and age, at the city and at any one of its localities |
| `ListingFilters.UnitMatchesIff` | src/modules/properties/property-listings.service.ts:36-124 | a unit passes if and only if its project is public, of a listed type, named, placed and as new as asked for, and the unit is on offer in the mode asked for with the price or rent, area, bedrooms, facing and furnishing asked for |
| `ListingFilters.FeedIsWhatFits` | src/modules/properties/property-listings.service.ts:126-156 | the feed holds exactly the listings of the properties that fit and of the projects that fit and have one unit that does |
| `ListingFilters.LeadingNumberIs` | src/modules/properties/properties.service.ts:228-232 | an age is read as the number it begins with |
| `ListingSearch.PageIsComplete` | src/modules/properties/property-listings.service.ts:177-238 | the loaded page follows the order of its keys and drops one exactly when that listing stopped matching between the queries; over unchanged tables it drops nothing |
| `ListingSearch.CardShowsMatchingUnits` | src/modules/properties/property-listings.service.ts:217-221 | the filter on units when a card is built removes nothing: it shows exactly the units that matched |
| `ListingSearch.LoadItems` | src/modules/properties/property-listings.service.ts:203-231 | the two loops fill the map with every listing of the page that can be loaded, each under its own key |
| `ListingSearch.Search` | src/modules/properties/property-listings.service.ts:126-238 | other property types are handed on; otherwise the page, the total of the whole feed, page number and size |
| `ListingSearch.StaleIndexShowsNothingHidden` | src/modules/properties/properties.service.ts:331-352 | however stale the index, a search through it shows exactly those of its hits that are public and pass the filters now, in the order of the hits |
| `Entities.DecodeSeoEntities` | src/modules/seo-engine/seo-quality.ts:21-36 | the loop that stops early computes three passes |
| `Entities.DecodingReadsWriting` | src/modules/seo-engine/seo-quality.ts:24-31 | one pass reads any text written with references exactly as it was meant, provided no ampersand was left bare |
| `Entities.PassUndoesEscape` | src/modules/seo-engine/seo-quality.ts:24-31 | one pass is a left inverse of escaping every ampersand, for all texts |
| `Entities.PassUndoesHtml` | src/modules/seo-engine/seo-quality.ts:10-31 | one pass is a left inverse of escaping `&`, `<`, `>`, `"` and `'` as HTML writers do, for all texts |
| `Entities.NumericReferencesRead` | src/modules/seo-engine/seo-quality.ts:25-31 | every code point written as a decimal or hexadecimal reference reads as its UTF-16 units |
| `Entities.NamesRead` | src/modules/seo-engine/seo-quality.ts:24-31 | the six known names, and the inherited one, are read in any mix of cases; every other name stays as it is |
| `Entities.DecimalsRead` | src/modules/seo-engine/seo-quality.ts:24-31 | one to seven decimal digits are read as their number unless it is zero or beyond the last code point; more digits are no reference |
| `Entities.HexadecimalsRead` | src/modules/seo-engine/seo-quality.ts:24-31 | the same for one to six hexadecimal digits of either case behind an x of either case |
| `Entities.UnitsOfCodePoint` | src/modules/seo-engine/seo-quality.ts:29-30 | those units stand for that code point and no other |
| `Entities.DecoderUndoesEscapes` | src/modules/seo-engine/seo-quality.ts:19-36 | three passes undo three escapes of any text, and fewer escapes if and only if the remaining passes leave the text alone, as they do any text without references; escapes beyond the third stay |
| `Entities.EntityFreeUnchanged` | src/modules/seo-engine/seo-quality.ts:24-33 | a text without references is unchanged |
| `Entities.UnchangedIff` | src/modules/seo-engine/seo-quality.ts:24-33 | a pass leaves a text alone if and only if it has no reference, also with `&constructor;` in it when that stands for the source of a function; without it any other text gets strictly shorter |
| `Entities.ReferenceShortensIff` | src/modules/seo-engine/seo-quality.ts:24-31 | a reference that is replaced gets shorter if and only if it is not `&constructor;` |
| `Entities.ConstructorLengthens` | src/modules/seo-engine/seo-quality.ts:10-17 | `&constructor;` reaches a property every object inherits and is replaced with that function's source text, which is longer |
| `ReviewSelection.SelectBestReviews` | src/modules/reviews/google-reviews.service.ts:47-70 | the loop, the stable sort and the cut select the best of the first copies that are good enough |
| `ReviewSelection.ShownAreTheBest` | src/modules/reviews/google-reviews.service.ts:47-70 | at most six, by rating, then length, then time; each rated 4 or better with at least 60 characters and the first copy of its author and time; one that may be shown and is missing outdoes none of them; as many as there are, up to six |
| `ReviewSelection.CandidatesAre` | src/modules/reviews/google-reviews.service.ts:50-55 | the competing reviews are exactly the first copies that reach both thresholds; a copy behind a poor first copy never competes |
| `ReviewCache.SingleFlight` | src/modules/reviews/google-reviews.service.ts:94-107 | under every interleaving at most one fetch is outstanding, and the field says whether one is |
| `ReviewCache.NextFetchWaits` | src/modules/reviews/google-reviews.service.ts:94-107 | between two fetches an answer arrived, and the last one had expired when the second fetch started |
| `ReviewCache.FetchesAreSpaced` | src/modules/reviews/google-reviews.service.ts:94-107 | on a clock that does not go back two fetches start at least a quarter of an hour apart, however many callers there are |
| `ReviewCache.ServedIff` | src/modules/reviews/google-reviews.service.ts:95-106 | a caller is served the last answer exactly until its expiry and otherwise waits for the one fetch |
| `ReviewCache.FetchStartsIff` | src/modules/reviews/google-reviews.service.ts:94-107 | a call starts a fetch if and only if the cache does not serve it and every earlier fetch has been cleaned up |
| `ReviewCache.Ledger` | src/modules/reviews/google-reviews.service.ts:94-107 | every fetch is answered once and cleaned up once, and nothing is cached before the first answer |
| `ReviewCache.GoogleReviewsService.GetReviews` | src/modules/reviews/google-reviews.service.ts:94-107 | answer and state of a call: cached, or pending with a fetch in flight |
| `ReviewCache.GoogleReviewsService.OnSettled` | src/modules/reviews/google-reviews.service.ts:98-101 | the cache after a fetch, for half a day after a success and a quarter of an hour after a failure |
| `ReviewCache.GoogleReviewsService.OnCleared` | src/modules/reviews/google-reviews.service.ts:102-104 | the next caller may fetch again |
| `Guardrails.NothingIsLost` | src/common/runtime-guardrails.ts:15-61 | over every run, in any order and with any repetition of events: the in-flight count is the number of accepted responses that have not ended and stays within the limit, each is released once, and reported plus pending completions and rejections are exactly those that happened |
| `Guardrails.RejectedIff` | src/common/runtime-guardrails.ts:15-24 | a request is turned away if and only if as many responses as allowed are in flight |
| `Guardrails.PeakIsHighest` | src/common/runtime-guardrails.ts:25-61 | the peak is the greatest in-flight count since the last snapshot, and was reached |
| `Guardrails.RuntimeGuardrails.Middleware` | src/common/runtime-guardrails.ts:15-38 | accepts or rejects, and registers both listeners of an accepted response |
| `Guardrails.RuntimeGuardrails.Release` | src/common/runtime-guardrails.ts:27-34 | removes both listeners and counts one completion |
| `Guardrails.RuntimeGuardrails.EmitEvent` | src/common/runtime-guardrails.ts:35-36 | an event releases its response exactly if it is still listened to |
| `Guardrails.RuntimeGuardrails.TakeSnapshot` | src/common/runtime-guardrails.ts:40-61 | reports the four counters as they are and starts them afresh, the peak from the current count |

## Left out

- SeoConfigs.RestoreBringsBack: settings, sections, entity overrides and image texts are one map of entries that a save overlays; normalisation of field aliases and validation are the parameter `valid`.
- SeoConfigs.PastIsKept: is about configurations that are not removed; removing a listing page and creating it again starts a new history. Of a listing row only its FAQs and its two texts are told apart; the clash of two rows with the same filters is part of `valid`. The limit of 30 entries in history() is not modelled.
- Redirects.RedirectTable.PersistRedirect: whether the destination resolves to a public page is a parameter; that lookup is not part of this model.
- Redirects.RunsStayAcyclic: is about rows of the table. The canonical redirect that resolve() adds to them is not guarded by the walk and not modelled.
- BlogAliases.RunKeepsConsistent: post deletion, and redirects at blog URLs or with the reason `blog-slug` saved by an administrator, leave or overwrite aliases on purpose and are not steps of the run.
- BlogAliases.EditorialService.SaveContent: content validation is left out; save() with a different slug cannot be reached through saveContent and is not a step.
- SlugRepair.SanitizePropertySlugs.ApplyUp: the rows selected are any list of unsafe rows of the table; slugs are compared exactly, the database collation ignores case.
- Otp.OtpService.VerifyOtp: hashing is an equality of codes, and one call is one step; two simultaneous guesses that read the same counter are not modelled.
- Otp.OtpService.RequestOtp: the moments at which a request reads the clock are parameters in order, but no other request comes between its check and its insert.
- Robots.ParseRobots: letters are lowered for ASCII only, and agents are checked in the order of the list rather than of a set, which can change which of several complaints is reported.
- RobotsMatch.MatcherMeansPattern: URLs contain no line terminators, which a dot does not match.
- Schema.UntouchedPathsKept: objects keep insertion order; keys that look like integers, and `__proto__`, which JavaScript treats specially, are ordinary keys here, and a base has no inherited properties: merging an object under the key `constructor` finds the inherited function in JavaScript and spreads its texts.
- Schema.NamedPatchIdempotent: patches are separately parsed values, so an `@id` or `@type` that is an object or array equals no other; applying one and the same parsed object again, which would find itself by reference, is not modelled.
- SectionSchema.SectionPageOfferFreeIff: which texts a section page takes from its root and the template is left out; they are any scalars.
- SearchIndex.RebuildIsRightIff: assumes a table that does not change during the rebuild, though its orders may. A document stands for all the fields its row determines.
- ListingFeed.EachListingOnce: numbers in a query arrive parsed, malformed price ranges dropped; a percent sign or underscore typed into a searched name is an ordinary character, not a wildcard, and an age with a minus sign is not read as the database would. Comparison is exact up to the washing in the code.
- ListingSearch.Search: the search of property types that have no projects, through the database alone, has no order among equal values and is not modelled. Page and size arrive validated, both at least one.
- ReviewSelection.SelectBestReviews: fields that are only copied (photo, relative time) are left out, and lengths count characters of the model.
- ReviewCache.SingleFlight: fetching, its timeout and its two requests are one event that ends with or without a value.
- Guardrails.RuntimeGuardrails.TakeSnapshot: memory figures, the timer and the log line are left out.
- Titles, labels, entity fields and image lists of resolve() and structuredData(): copying of fields.
- Controllers, guards, tokens, storage, SMS, IndexNow, CRM forwarding, lead forms and floor-plan files.
- Trimming is part of turning other characters into dashes in slugs; letters beyond ASCII are not lowered.
