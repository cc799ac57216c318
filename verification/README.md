# A verified model of the website engine

The repository serves many websites from one database. Pages exist once as a *generic* row and, where a
website wants its own, as a *specific* row of that website. This project models the hand-written verbs that
keep such a database in order, and proves what they promise over every input, run and interleaving.

Tables are maps from row id to row, and `Schema.Database` and the other classes hold them as mutable
fields. Each verb is a method that runs the statements of the source's transaction; its postcondition equates
the new tables and the answer with a specification function of the old tables. The theorems are about these
functions, over all tables, all runs, and for the fork over all interleavings. For each verb they include when it is
accepted, which refusal it gives otherwise, and every column it writes, in terms that do not name the specification's
own helpers.

| area | modules | main results |
|---|---|---|
| rows, indexes, ids | `Common`, `Schema`, `Sorting`, `Text` | |
| resolver | `Specificity` | a live row is the one its slots resolve to |
| fork and fanout | `Versioning`, `ForkProofs`, `FanoutProofs`, `FanoutLate` | `ForkKeepsMeaning`, `ForkThenDelete`, `FanoutKeepsMeaning`, `LateKeepsMeaningIff` |
| concurrent fork | `ForkRace`, `ForkRaceProofs`, `ForkRaceOutcome` | `RaceIsSerial`, `RaceOutcome`, `RaceEffects` |
| pages | `Pages`, `PageProofs` | who answers where after each verb |
| redirects | `Redirects`, `RedirectProofs`, `RedirectAnswers` | what each verb does to every path's answer, and with which status |
| matcher | `LangMatcher`, `Rewriting`, `Routing` | `NormalFormBySegments`, `ChainsEndIffRanked` |
| redirect chains | `RedirectChains`, `ChainHistory` | `CarefulNeverLoops`, `RenameBackIff` |
| sitemap | `Sitemap` | `SitemapIsTheFold`, `ListedIsServed` |
| bootstrap and runs | `Websites`, `BootstrapProofs`, `SiteRuns`, `SiteHistory`, `ClashRun`, `UrlRuns` | `SitesStayWhole`, `WholeIffHomesKept`, `BootstrapByUrl` |
| menus | `MenuVerbs`, `MenuWrites`, `MenuDepth`, `MenuFanout`, `MegaMenus` | `ShallowIffCareful`, `PatchKeepsDepthIff`, `IsolationIff` |
| menu tree | `MenuTree`, `MenuForest`, `MenuReads`, `MenuPublic` | `BuildTree`, `ForestIsUnique`, `SliceIsTheTree` |
| tours | `Tours`, `TourHistory` | `RunRefines`, `ConsumeAnswers` |
| visitors | `Visitors`, `VisitorRuns`, `VisitorGc` | `TokensNeverChange`, `TracksAreApart`, `SweepIsComplete` |
| rate books | `RateBooks` | `AdmittedPerHour`, `AtMostTwiceTheLimit`, `ArmsShareIff` |
| slugs | `Slug` | `FixedIffKebab`, `UuidIsIdentified`, `IntIsIdentified` |

## Conventions

- A uuid is a natural number; only identity and order matter. New ids come from `nextId`, above every id in
  use. An `ORDER BY id` is the numeric order.
- The unique indexes are those of `migrations/20260902000020_website_hardening_constraints.up.sql:16-47`.
  The generic counts as a site of its own, which is what comparing `Option` website values says.
- `LIMIT 1` over rows that an index makes unique is "the first of the set". Where the source leaves a choice
  open (hash-map order, equal urls or ages in an ordered query, the row a locking select returns) so does the
  model.
- The race takes READ COMMITTED statement by statement: a statement sees the committed tables and its own
  writes, and an insert whose index slot an open transaction holds waits for that transaction to end.
- Metadata stamps, actors and audit rows carry no state here. The clock, the visitor digest and the random
  token are parameters. The rate limiter's two clock readings within one bump are two parameters.
- Strings are sequences of characters; lengths the source takes in bytes use `Text.ByteLength`. The sitemap is
  proved for every collation that is a total order; tour names and parameter names are sorted by code point.

## Where the code and its comments differ

The model follows the code.

- The fanout's `ON CONFLICT DO NOTHING` also swallows a clash on the url, so "every website holds a specific"
  (`src/application/service/versioning_service.rs:241`) needs the condition of `FanoutProofs.FanoutKeepsMeaning`;
  `ClashRun.FanoutLosesAPage` is a run without it.
- By url the fanout is not silent for a website that already had its own page at another url:
  `FanoutProofs.FanoutByUrl`, `UrlRuns.FanoutClosesAUrl`.
- `patch_menu` measures the moved node only, so an accepted move can exceed the depth or close a cycle:
  `MenuDepth.PatchKeepsDepthIff`, `MenuDepth.MoveUnderChildMakesACycle`.
- `tree_visible` asks for the direct parent only: `MenuPublic.FilterIsChainIff`, `MenuPublic.GapHappens`.
- A mega menu is to carry no parent and no child; the verbs do not ask whether the parent is one:
  `MegaMenus.IsolationIff`, `MegaMenus.ChildOfAMegaMenu`.
- Row 4 of the matcher overlooks a double slash at the very front: `Rewriting.NormalFormBySegments`.
- `param_parity_holds` compares how often each name occurs: `Redirects.ParityIsMultiset`.
- `create` checks an alias before it trims the source, so the stored row breaks the parity exactly when the query
  ends in whitespace inside a parameter without a value: `RedirectProofs.StoredAliasParity`,
  `RedirectProofs.TrimBreaksParity`.
- The sitemap filters before it picks: `Sitemap.FilterBeforePick`, `ClashRun.ListedButNotServed`.
- Redirect tables can loop, and a rename back is one way to it: `RedirectChains.RenameBackIff`.
- A bootstrap that finds no generic homepage, as after that was deleted, is not local by url: `SiteRuns.BootstrapByUrl`,
  `UrlRuns.BootstrapReachesOthers`.
- A new language code can make harmless redirects loop: `ChainHistory.LangPatchIsSafe`, `ChainHistory.LangPatchLoops`.
- A website made while a fanout runs can be left without the page: `FanoutLate.LateKeepsMeaningIff`,
  `FanoutLate.BootstrapBetween`.
- Page titles can be long enough for the id to be cut from the slug: `Slug.UuidIsIdentified`, `Slug.IntIsIdentified`.
- A verb name with a colon can share the rate bucket of the heartbeat or of another verb's address arm, never that of
  an identity arm it continues: `RateBooks.ArmsShareIff`, `RateBooks.HeartbeatSharesIff`.
- The slug's uuid arm is the hyphenated form, not the simple one its comment names
  (`src/application/service/slug.rs:12`).
- A merge takes whatever row it is given, identified or of another website: `Visitors.MergeTakesNoOthersIff`,
  `Visitors.SecondLoginTakesOver`.

## Model

| member | source | states |
|---|---|---|
| Versioning.InsertSpecificCopy | src/application/service/versioning_service.rs:69-117 | the conflict-tolerant insert: false and no change when the generic is gone or a unique index holds a slot, a rollback-worthy foreign-key error for a missing website, otherwise exactly one new row with the generic's content and one copy of its blocks |
| Versioning.ForkToWebsite | src/application/service/versioning_service.rs:122-196 | the fork transaction commits and answers what the indivisible fork does, and on every error leaves the tables as they were |
| Versioning.DeleteGenericWithFanout | src/application/service/versioning_service.rs:202-296 | the fanout transaction equals the specification fanout: copies for the websites without one, menus moved, generic dead; or nothing when the generic is missing |
| ForkProofs.ForkKeepsIndexes | src/application/service/versioning_service.rs:122-196 | a fork keeps at most one live page per (key, site) and per (url, site) |
| ForkProofs.ForkKeepsMeaning | src/application/service/versioning_service.rs:122-196 | no website's effective page changes, by any key or any url, when a fork commits |
| ForkProofs.ForkOutcomeIs | src/application/service/versioning_service.rs:122-196 | which answer each fork gives, by what resolves on the website: existing page, missing source, url held by another page, missing website, or a new page |
| ForkProofs.ForkAnswers | src/application/service/versioning_service.rs:122-196 | the answered id is the specific that now resolves, and Created is answered exactly when there was none |
| ForkProofs.ForkIsIdempotent | src/application/service/versioning_service.rs:122-196 | a second fork answers Existing with the same id and changes nothing |
| ForkProofs.ForkThenDelete | src/application/service/page_service.rs:532-597 | fork followed by delete of the created page gives every website its resolutions by key and by url back, and every menu row its binding |
| ForkProofs.ForkStores | src/application/service/versioning_service.rs:69-117 | the new row has the generic's key and content columns, remembers the generic and has its blocks once |
| ForkProofs.ForkMoves | src/application/service/versioning_service.rs:155-172 | exactly the website's live menus on the generic follow, and no other table changes |
| ForkProofs.ForkWritesOnce | src/application/service/versioning_service.rs:122-196 | a fork that refuses or finds the website's own page writes nothing |
| FanoutProofs.FanoutCopies | src/application/service/versioning_service.rs:232-270 | the insert loop in closed form: one full copy for each listed website whose key slot and url slot are free, none for the others |
| FanoutProofs.FanoutAnswers | src/application/service/versioning_service.rs:202-296 | the answer names the dead generic and, in website order, each copy and the website that now resolves the key to it |
| FanoutProofs.FanoutTouchesAll | src/application/service/versioning_service.rs:202-296 | no website that could receive a copy is missing from the answer |
| FanoutProofs.FanoutStores | src/application/service/versioning_service.rs:232-296 | every new row is a full copy that remembers the generic, with its blocks, on a listed website with both slots free; the generic dies and every other row stays |
| FanoutProofs.TargetsAre | src/application/service/versioning_service.rs:216-231 | the fanout copies to the live websites without a page of their own for the key, each once, in id order |
| FanoutProofs.FanoutAcceptedIff | src/application/service/versioning_service.rs:202-215 | the fanout is accepted exactly when there is a generic, and else writes nothing |
| FanoutProofs.FanoutKeepsMeaning | src/application/service/versioning_service.rs:202-296 | the fanout leaves every live website's effective page of every key unchanged if and only if no website about to receive a copy has a specific of another key at the generic's url |
| ClashRun.FanoutLosesAPage | src/application/service/versioning_service.rs:232-270 | a run of the verbs from empty tables after which the fanout takes the page of the generic's key from a website |
| FanoutProofs.FanoutByUrl | src/application/service/versioning_service.rs:202-296 | what every live website answers at every url after the fanout, the url the generic held included |
| FanoutProofs.FanoutMenus | src/application/service/versioning_service.rs:272-286 | every menu keeps all but its page, and only live menus on the dead generic move, to their own website's specific |
| FanoutProofs.MenusLeaveTheGeneric | src/application/service/versioning_service.rs:272-286 | a live menu of a live website stays on the dead generic exactly when a url clash kept that website from its copy |
| UrlRuns.FanoutClosesAUrl | src/application/service/versioning_service.rs:202-296 | a run of the verbs from empty tables after which the fanout leaves a live website without the page it read at a url, though with its page of the key |
| FanoutLate.LateKeepsMeaningIff | src/application/service/versioning_service.rs:202-296 | when other transactions commit between the list of websites and the rest of the fanout, it is silent if and only if every live website then has a page of its own for the key, or is on the list with the generic's url free |
| FanoutLate.ForkBetween | src/application/service/versioning_service.rs:122-296 | a fork of any key that commits in between takes nothing from anybody |
| FanoutLate.BootstrapBetween | src/application/service/versioning_service.rs:202-296 | a website made in between reads the generic before the fanout commits and nothing for the key after it |
| ForkRaceProofs.CommitIsFork | src/application/service/versioning_service.rs:122-196 | the commit of the multi-statement fork is one indivisible serial fork of the tables it meets |
| ForkRaceProofs.RaceIsSerial | src/application/service/versioning_service.rs:69-196 | in every state of every interleaving of any number of forks, aborts included, tables and answers are those of the committed calls run alone in commit order, and the unique indexes hold |
| ForkRaceOutcome.RaceOutcome | src/application/service/versioning_service.rs:122-196 | per slot: if a specific existed every committed call answers it; if not, exactly one committed call answers Created and all answer the same id |
| ForkRaceOutcome.RaceEffects | src/application/service/versioning_service.rs:134-172 | each winner's page is the generic's full copy with its blocks once, exactly its website's bound menus moved, and no other call leaves a trace |
| ForkRaceOutcome.FailuresAre | src/application/service/versioning_service.rs:122-196 | in every state of every interleaving a call that failed was aborted, or there was no generic, or no such website, or there was a generic and the website had no page of the key to answer with |
| ForkRaceOutcome.NoDeadlock | src/application/service/versioning_service.rs:69-117 | while a fork transaction is open some transaction can run its next statement |
| ForkRaceOutcome.StepsAreFew | src/application/service/versioning_service.rs:122-196 | every step brings its transaction closer to its end and moves no other |
| Specificity.SlotHolds | src/application/service/specificity.rs:117-157 | under the indexes a live row is the one row its key and its url resolve to on its site |
| Pages.Create | src/application/service/page_service.rs:177-230 | the create transaction equals its specification, refusals included |
| Pages.Rename | src/application/service/page_service.rs:392-527 | the rename transaction equals its specification: row, menus, homepage and redirect together, or nothing |
| Pages.Delete | src/application/service/page_service.rs:532-597 | the specific delete equals its specification, the second menu update being a no-op |
| PageProofs.CreateAcceptedIff | src/application/service/page_service.rs:177-230 | a page is accepted exactly when its input is well formed, its title is not blank, its site exists and both its slots are free |
| PageProofs.CreateRefusals | src/application/service/page_service.rs:177-230 | which refusal each malformed or clashing input gets, in the order of the checks; and a refusal writes nothing |
| PageProofs.CreateStores | src/application/service/page_service.rs:192-217 | every column of the new row, the tier by its text; and no other row of any table |
| PageProofs.CreateResolves | src/application/service/page_service.rs:177-230 | the created page holds its key slot and its url slot, and no other slot moves |
| PageProofs.CreatedIsHidden | src/application/service/page_service.rs:623-663 | a page just created, a generic one included, is served to nobody on any website; where a website has its own page at that url, and at every other url, everybody is served what they were |
| Pages.Publish | src/application/service/page_service.rs:342-362 | the publish equals its specification: the flag, and the first publish instant kept |
| PageProofs.PublishOpens | src/application/service/page_service.rs:342-362 | publishing opens the page from its first publish instant on to those its tier lets pass, wherever a url resolves to it; nothing else is served differently |
| PageProofs.UnpublishCloses | src/application/service/page_service.rs:367-387 | unpublishing closes the page to everybody wherever a url resolves to it; nothing else is served differently |
| PageProofs.PublishTouches | src/application/service/page_service.rs:342-387 | both verbs are accepted exactly for a live page, change its flag and at most its first publish instant, and nothing else |
| PageProofs.RepublishRestores | src/application/service/page_service.rs:342-387 | publishing again after an unpublish gives the very tables back, whatever the clock says |
| PageProofs.RenameAcceptedIff | src/application/service/page_service.rs:392-527 | a rename is accepted exactly when the url is valid, the page lives, the url is free on its site or its own, and the redirect asked for can be kept |
| PageProofs.RenameRefusals | src/application/service/page_service.rs:392-527 | which refusal a rename gets otherwise |
| PageProofs.RenameTouches | src/application/service/page_service.rs:392-527 | the page keeps every column but its url, every other page, block, member and redirect stays, and a refusal writes nothing |
| PageProofs.MovedSlots | src/application/service/page_service.rs:392-470 | the page answers at the new url, nobody at the old one, and no other slot moves |
| PageProofs.RenameCarriesLinks | src/application/service/page_service.rs:432-470 | exactly the live menus of the website with the old literal url follow; the website's homepage url follows when it was there and the row stays otherwise; no other website's row changes |
| PageProofs.DeleteAcceptedIff | src/application/service/page_service.rs:532-597 | a delete is accepted if and only if the row is live and belongs to a website; a missing or dead row is not found, a generic is left to the fanout verb, and a refusal writes nothing |
| PageProofs.DeleteLeavesGenerics | src/application/service/page_service.rs:532-597 | whatever is asked to be deleted, the generic page of every key and of every url stays |
| PageProofs.DeleteFallsBack | src/application/service/page_service.rs:532-597 | the website falls back to the generic for that key, and no other website or key resolves differently |
| PageProofs.DeleteFallsBackByUrl | src/application/service/page_service.rs:532-597 | it falls back to the generic at that url, and no other website or url resolves differently |
| PageProofs.DeleteRebindsMenus | src/application/service/page_service.rs:532-597 | every live menu on the dead page goes to the generic, or to no page; no other menu changes |
| PageProofs.ServedBelongs | src/application/service/page_service.rs:623-663 | whatever is served is live, published, due, of this website or generic, at the requested url, to a reader of its tier, and a generic only where the website has no page of its own |
| PageProofs.ReadersAre | src/application/service/page_service.rs:120-150 | who is served a page that is out: everybody a public one, every principal a connected one, and a restricted one exactly the principals with a membership of this website in one of its roles; everybody else is refused |
| PageProofs.StrangersAreRefused | src/application/service/page_service.rs:120-150 | a membership of another website only, or in another role only, opens nothing |
| PageProofs.NothingThere | src/application/service/page_service.rs:623-663 | there is nothing, and no refusal, exactly where nothing resolves or the page is not out yet |
| PageProofs.SigningInOnlyOpens | src/application/service/page_service.rs:120-150 | a principal is served at least what an anonymous visitor is |
| RedirectProofs.ParamNamesAre | src/application/service/redirect_service.rs:37-47 | the parameter names of a url are, for each non-empty piece between the ampersands after the first question mark, what stands before its first equals sign |
| Redirects.ParityIsMultiset | src/application/service/redirect_service.rs:37-57 | the sorted comparison holds exactly when the two urls carry the same parameter names equally often |
| Redirects.ParityIsSetWhenDistinct | src/application/service/redirect_service.rs:37-57 | when one of the urls repeats no name, the sorted comparison is the documented comparison of name sets if and only if the other repeats none either |
| Redirects.ParityCountsRepetitions | src/application/service/redirect_service.rs:51-57 | a repeated name makes it refuse two urls with equal name sets |
| Redirects.CreateRow | src/application/service/redirect_service.rs:147-184 | the create transaction equals its specification |
| Redirects.PatchRow | src/application/service/redirect_service.rs:190-273 | the patch, arm by arm, equals the specification that validates the resulting row |
| Redirects.DeleteRow | src/application/service/redirect_service.rs:276-304 | the delete transaction equals its specification |
| Redirects.RecordRow | src/application/service/redirect_service.rs:345-373 | the recording seam equals its specification |
| RedirectProofs.CreateAnswers | src/application/service/redirect_service.rs:147-184 | a redirect is accepted exactly when it is valid, its website exists and its trimmed path has no answer; then it is the answer there and no other path changes |
| RedirectAnswers.CreatedAnswer | src/application/service/lang_matcher.rs:194-201 | a person's GET of a created redirect's path is sent to its target with 301 for moved_301, 302 for found_302 and 308 for alias_308, and is told there is nothing for gone_404 |
| RedirectAnswers.RecordedAnswer | src/application/service/lang_matcher.rs:194-201 | the same for a recorded redirect at a path that had no answer |
| RedirectAnswers.RenamedAnswer | src/application/service/page_service.rs:476-512 | after a rename that leaves a redirect the old url is sent to the new one with the code that was asked for |
| RedirectAnswers.PatchedAnswer | src/application/service/redirect_service.rs:190-273 | a patched redirect answers so under the kind the patch names, or the one it had |
| RedirectAnswers.ValidationRefusals | src/application/service/redirect_service.rs:59-93 | why a redirect is not valid |
| RedirectAnswers.CreateRefusals | src/application/service/redirect_service.rs:147-184 | which refusal a create gets, and that it writes nothing |
| RedirectAnswers.RecordRefusals | src/application/service/redirect_service.rs:345-373 | a recording is refused only for an invalid redirect or a missing website, and writes nothing then |
| RedirectAnswers.PatchAcceptedIff | src/application/service/redirect_service.rs:190-273 | when a patch is accepted and which refusal it gets otherwise |
| RedirectAnswers.PatchStores | src/application/service/redirect_service.rs:190-273 | a patch writes the columns it names and keeps the others |
| RedirectAnswers.DeleteAcceptedIff | src/application/service/redirect_service.rs:276-304 | a delete takes one live row out and touches nothing else; anything else is not found |
| RedirectAnswers.OneRowWritten | src/application/service/redirect_service.rs:147-373 | a create and a recording write one row, with the source and target given, and touch nothing else |
| RedirectProofs.ValidatedIff | src/application/service/redirect_service.rs:59-93 | a redirect validates exactly when its source is on the site, its kind is known, it has a target unless it is gone, and the target is on the site for a 301 or 302 and has the same parameter names equally often for a 308 |
| RedirectProofs.TrimLosesIff | src/application/service/redirect_service.rs:37-57 | trimming a source changes its parameter names if and only if its query ends in whitespace inside a parameter without an equals sign |
| RedirectProofs.StoredAliasParity | src/application/service/redirect_service.rs:147-172 | an accepted alias keeps the parity in the stored row if and only if its source does not end so |
| RedirectProofs.TrimBreaksParity | src/application/service/redirect_service.rs:147-172 | the create verb accepts an alias whose stored, trimmed row breaks the parity |
| RedirectProofs.RecordIsIdempotent | src/application/service/redirect_service.rs:345-373 | recording never disturbs an existing answer, and recording again changes nothing |
| RedirectProofs.DeleteUnanswers | src/application/service/redirect_service.rs:276-304 | the deleted row's path has no answer any more, every other path the same one |
| RedirectProofs.PatchMovesAnswer | src/application/service/redirect_service.rs:190-273 | a patched row answers at its new path and not at its old one; every other path answers as before |
| LangMatcher.CollapseSlashes | src/application/service/lang_matcher.rs:149-164 | the loop with its flag drops exactly the slashes that follow a slash |
| LangMatcher.ApplyMatcher | src/application/service/lang_matcher.rs:244-276 | the answer is that of the first row of the table that fires; the loop never falls off the end |
| Rewriting.HopShortens | src/application/service/lang_matcher.rs:85-174 | each hop of rows 3 to 5 shortens the path |
| Rewriting.HopsInOrder | src/application/service/lang_matcher.rs:85-174 | at most one trim, then at most one collapse, then language hops only, and the closed form they end at |
| Rewriting.NormalFormIsFinal | src/application/service/lang_matcher.rs:85-174 | no row of 3 to 5 fires on a normal form, and no hop changes the normal form |
| Rewriting.NormalFormBySegments | src/application/service/lang_matcher.rs:85-174 | for every absolute path and every language code, one with slashes in it included: the normal form is the path's non-empty segments without the code's at the front, joined; but a lone leading double slash stays, and shields the segments from a code that does not begin with a slash |
| Rewriting.OrdinaryCode | src/application/service/lang_matcher.rs:85-174 | a code without slashes is one segment, dropped from the front as often as it stands there and never from behind a lone double slash |
| Rewriting.SameSegmentsMeet | src/application/service/lang_matcher.rs:85-174 | two paths with the same segments end at the same path if and only if both keep a lone double slash or neither does |
| Rewriting.ValidUrlsAreFixed | src/application/service/page_service.rs:88-105 | the page verbs accept exactly the site-absolute urls that rows 3 and 4 leave alone |
| Routing.CanonicalNeverFires | src/presentation/http/public_routes.rs:438-465 | the url fold returns exactly the requested url, so the canonical row never fires in the routing verb |
| Routing.NeverBounced | src/presentation/http/public_routes.rs:417-465 | a bot, and any method but GET, is served what an anonymous read of the path is or told there is nothing, never redirected |
| Routing.GetAnswer | src/presentation/http/public_routes.rs:417-465 | what a person's GET gets at every path: slash and language rows, then the redirect table, then the page |
| Routing.GetServes | src/presentation/http/public_routes.rs:438-465 | where no row above sends it elsewhere, a person's GET is served exactly when an anonymous read of the path is |
| Routing.RoutedAs | src/presentation/http/public_routes.rs:417-437 | a missing path is the front page and a path without its slash is given one |
| Routing.NextIsTheAnswer | src/presentation/http/public_routes.rs:417-465 | the step relation of redirect chains is what the verb answers, at whatever time it is asked |
| Routing.ChainsEndIffRanked | src/application/service/lang_matcher.rs:221-276 | every redirect chain ends, from every path, if and only if the live redirect table has a rank that falls from each source to the normal form of its target |
| Routing.NewStepIsSafe | src/application/service/lang_matcher.rs:221-276 | changing where one path leads keeps every chain ending if and only if it now leads nowhere or the chain from where it leads did not already pass it |
| RedirectChains.CreateIsSafe | src/application/service/redirect_service.rs:147-184 | an accepted create keeps every chain of every website ending if and only if the chain from its target does not pass its source; a gone row, a target off the site and a source that a slash or language row rewrites never harm |
| RedirectChains.RecordIsSafe | src/application/service/redirect_service.rs:345-373 | the same for the recording seam, and a recording that leaves an existing answer alone harms nothing |
| RedirectChains.RenameIsSafe | src/application/service/page_service.rs:392-527 | the same for the redirect a rename leaves |
| RedirectChains.DeleteIsSafe | src/application/service/redirect_service.rs:276-304 | deleting a redirect keeps every chain ending |
| RedirectChains.PatchIsSafe | src/application/service/redirect_service.rs:190-273 | a patch keeps every chain ending if and only if the patched row is harmless beside the other rows |
| ChainHistory.LangPatchIsSafe | src/application/service/website_service.rs:548-620 | patching the default language code keeps every chain ending if and only if the redirects that the new code leaves to the table have a rank falling from source to target under it |
| ChainHistory.LangPatchLoops | src/application/service/website_service.rs:548-620 | two redirects that are harmless under "en" and lead to each other once the code is "fr" |
| ChainHistory.CarefulNeverLoops | src/application/service/redirect_service.rs:147-373 | over any serial run of the content and redirect verbs and the page and website patches, from empty tables, no chain of any website loops at any moment if and only if every redirect was harmless when it was written and every new language code left the table ranked |
| RedirectChains.RenameBackIff | src/application/service/page_service.rs:476-512 | after a page is renamed away and back, each time leaving a redirect of either code, every chain still ends if and only if one of the two urls is under the language prefix and, unless both are, the prefixed one did not already lead to the other |
| RedirectChains.RenameBackLoops | src/application/service/page_service.rs:476-512 | when neither url is under the language prefix, no client that asks for either of them ever gets an end |
| Sitemap.ListedIff | src/application/service/specificity.rs:171-205 | a row is listed if and only if it is live, published, due, public and to be indexed, and the website's own or a generic whose key has no such own row |
| Sitemap.ListedIsServed | src/application/service/specificity.rs:171-205 | a listed url is served to an anonymous visitor at that instant if and only if the website has no closed page of its own there |
| ClashRun.ListedButNotServed | src/application/service/specificity.rs:171-205 | a run of the verbs from empty tables after which the sitemap lists a url that an anonymous visitor is not served |
| Sitemap.FilterBeforePick | src/application/service/specificity.rs:180-189 | the filter comes before the pick: an unlistable own page lets its generic be listed while the resolver still answers the own page |
| Sitemap.FetchPage | src/application/service/specificity.rs:171-205 | the ordered, limited query, with every choice among equal urls left open |
| Sitemap.FollowCursors | src/presentation/http/public_routes.rs:375-395 | following the cursors ends for every page cap of at least one, whatever the query does with ties |
| Sitemap.CrawlServesAll | src/presentation/http/public_routes.rs:375-395 | a complete crawl serves exactly the urls after its cursor |
| Sitemap.CrawlIncreases | src/presentation/http/public_routes.rs:375-395 | every url of a page comes strictly before every url of a later page, even when two rows share one |
| Sitemap.CrawlIsShort | src/presentation/http/public_routes.rs:375-395 | a crawl asks for at most one page more than there are urls |
| Sitemap.SitemapIsTheFold | src/presentation/http/public_routes.rs:358-395 | the crawl of a website from no cursor at the route's cap yields exactly the urls of the fold |
| Websites.Create | src/application/service/website_service.rs:216-421 | the bootstrap transaction equals its specification, and commits nothing on a refusal |
| BootstrapProofs.BootstrapAcceptedIff | src/application/service/website_service.rs:216-345 | a website is made if and only if it has a name, a site-absolute homepage, and its domain, its public principal and its seed's url are free; and which refusal it gets otherwise |
| BootstrapProofs.BootstrapStores | src/application/service/website_service.rs:284-345 | every column of the website row, of the seed and of the homepage, which is the generic one's copy at its own url without the SEO name; and no other page |
| BootstrapProofs.BootstrapPlants | src/application/service/website_service.rs:346-405 | every column of the two menus it starts with |
| SiteRuns.BootstrapIsWhole | src/application/service/website_service.rs:284-405 | the new website resolves its homepage to its own page at its own url, and its Home menu under the root is bound to that page |
| SiteRuns.BootstrapIsLocal | src/application/service/website_service.rs:284-345 | a bootstrap changes no other live website's effective page for any key |
| SiteRuns.BootstrapByUrl | src/application/service/website_service.rs:284-345 | by url: the generic homepage a bootstrap seeds answers at the new website's homepage url on every website without a page of its own there, no other url of another website resolves differently, and nobody is served anything different |
| UrlRuns.BootstrapReachesOthers | src/application/service/website_service.rs:284-345 | a run of the verbs from empty tables after which a second bootstrap gives a live website a page at a url where it had none |
| SiteRuns.MovedHome | src/application/service/page_service.rs:455-474 | when a homepage is renamed the website row follows it, and no other rename touches a homepage url |
| SiteHistory.SitesStayWhole | src/application/service/website_service.rs:216-421 | after any serial run of the content and redirect verbs from empty tables every live redirect is well formed and the only answer at its path; and when no event met one of the three conditions below, every live website's homepage_url is the url of its own live homepage |
| SiteHistory.WholeIffHomesKept | src/application/service/website_service.rs:216-421 | over any such run pages, homes and redirects are whole at every moment if and only if no event met one of the three conditions below |
| SiteHistory.DeleteSpecificKeepsHomes | src/application/service/page_service.rs:532-597 | deleting a specific keeps that exactly when it is not a live website's homepage |
| SiteHistory.PatchPageUrlKeepsHomes | src/application/service/page_service.rs:264-337 | the url arm of the page patch keeps that exactly when the page is no live website's homepage or its url stays |
| SiteHistory.PatchHomepageUrlKeepsHomes | src/application/service/website_service.rs:548-620 | the homepage_url arm of the website patch keeps that exactly when it changes nothing or the website is not live |
| SiteHistory.PatchPageUrlTouches | src/application/service/page_service.rs:264-337 | the url arm moves the page alone; when it is accepted, and which refusal it gets otherwise |
| SiteHistory.PatchSiteTouches | src/application/service/website_service.rs:548-620 | the two arms of the website patch change one column of one website |
| MenuVerbs.Create | src/application/service/menu_service.rs:185-241 | the create transaction equals its specification, in the order its checks are made |
| MenuWrites.CreateAcceptedIff | src/application/service/menu_service.rs:185-241 | when a create is accepted, in terms of the rows above its parent, and which refusal it gets otherwise |
| MenuWrites.CreateStores | src/application/service/menu_service.rs:207-241 | every column of the new row, the tier by its text; and no other row of any table |
| MenuWrites.PatchAcceptedIff | src/application/service/menu_service.rs:247-353 | when a patch is accepted and which refusal it gets otherwise |
| MenuWrites.PatchStores | src/application/service/menu_service.rs:247-353 | each column is as the patch names it, and as it was where it names none |
| MenuWrites.DeleteTakesOneRow | src/application/service/menu_service.rs:357-385 | a delete takes one live row out and no other; anything else is not found |
| MenuVerbs.Patch | src/application/service/menu_service.rs:247-353 | the patch transaction equals its specification |
| MenuVerbs.Delete | src/application/service/menu_service.rs:357-385 | the local soft delete |
| MenuVerbs.Fanout | src/application/service/menu_service.rs:392-516 | the fan-out loop equals its specification |
| MenuDepth.DepthIsTrue | src/application/service/menu_service.rs:147-167 | a node is a root, a child or a grandchild of one exactly when it has a depth of at most two, and then the bounded walk returns it |
| MenuDepth.PatchKeepsDepthIff | src/application/service/menu_service.rs:271-284 | an accepted patch keeps every depth at most two and the forest free of cycles if and only if the node goes to the root, stays, has no rows below it, or goes under a root with no rows two below it |
| MenuDepth.MoveUnderChildMakesACycle | src/application/service/menu_service.rs:271-284 | moving a root under its own child is accepted and makes a cycle |
| MenuDepth.DepthStaysTrue | src/application/service/menu_service.rs:147-516 | over any run of create, delete, fan-out and such patches: depth at most two, the walk is the depth, no cycle |
| MenuDepth.ShallowIffCareful | src/application/service/menu_service.rs:147-516 | over any run of the menu verbs no node is deeper than two and none on a cycle, at every moment, if and only if every accepted patch was one of those moves |
| MenuFanout.FanoutMenuIs | src/application/service/menu_service.rs:392-516 | the i-th other live website gets exactly the i-th new menu with the source's blocks once, as if it were made first; every menu there before is untouched |
| MenuFanout.CopyIs | src/application/service/menu_service.rs:392-516 | each other live website gets exactly one copy: bound to what it resolves the source's page key to, under its first live root by (sequence, id) unless the source is a mega menu, equal to the source in every other column, with the source's blocks |
| MenuFanout.CopyStaysHome | src/application/service/menu_service.rs:440-490 | a copy is bound to the target's own or the generic page of the source's key, and to none only when there is none, never to another website's; its parent is a live root of its website |
| MenuFanout.FanoutRefusal | src/application/service/menu_service.rs:392-424 | a menu that is not live is not fanned out, and nothing is written |
| MegaMenus.CreateIsolatesIff | src/application/service/menu_service.rs:195-209 | an accepted create keeps every mega menu without parent and without live children if and only if its parent is no mega menu |
| MegaMenus.PatchIsolatesIff | src/application/service/menu_service.rs:271-294 | the same for an accepted patch and the parent it leaves the row with |
| MegaMenus.FanoutIsolatesIff | src/application/service/menu_service.rs:440-490 | a fan-out keeps it if and only if the menu is a mega menu itself or no target website's root is one |
| MegaMenus.IsolationIff | src/application/service/menu_service.rs:185-516 | over any run of the menu verbs mega menus stay alone at every moment if and only if no event put a row under one |
| MegaMenus.ChildOfAMegaMenu | src/application/service/menu_service.rs:195-209 | a create under a mega menu is accepted and ends the isolation |
| MenuTree.BuildTree | src/application/service/menu_service.rs:697-753 | from the hash maps in any order: a sorted forest of the rows, each node over exactly its own children |
| MenuTree.AttachAll | src/application/service/menu_service.rs:732-744 | taking entries out of the map attaches every subtree completely, since the subtrees of a level share nothing |
| MenuTree.SortRecursive | src/application/service/menu_service.rs:745-752 | every level comes out in (sequence, id) order |
| MenuForest.ForestIsUnique | src/application/service/menu_service.rs:697-753 | every iteration order gives the same forest |
| MenuForest.RowsAppearOnce | src/application/service/menu_service.rs:697-753 | every row with a way up to a root appears exactly once, a row on a cycle not at all |
| MenuForest.UnderOwnParent | src/application/service/menu_service.rs:725-744 | wherever a node stands, the node above it is its row's parent; roots have no parent among the rows |
| MenuForest.LevelsInOrder | src/application/service/menu_service.rs:745-752 | at every level nodes come by sequence, and by id where the sequence is the same |
| MenuForest.ShallowRowsHaveRoots | src/application/service/menu_service.rs:697-731 | rows taken from a menu table of depth at most two all have a way up to a root |
| MenuReads.HierarchyRead | src/application/service/menu_service.rs:593-673 | the slice read: limit refused outside 1 to 500, a missing anchor refused, otherwise the level in order, cut and flagged |
| MenuReads.SliceIsTheTree | src/application/service/menu_service.rs:593-673 | under any node of the officer tree the slice is the first `limit` of the node's children, truncated if and only if there are more |
| MenuReads.RootSliceIsTheTree | src/application/service/menu_service.rs:593-673 | the root slice is the first `limit` of the tree's roots that have no parent |
| MenuReads.ChildCountIsTheTreeIff | src/application/service/menu_service.rs:593-673 | the child count of a node is the number of its children in the officer tree if and only if no live menu of another website stands under it |
| MenuPublic.SeenIff | src/application/service/menu_service.rs:538-573 | which live rows of the website a visitor sees, by tier and membership |
| MenuPublic.GapSurfaces | src/application/service/menu_service.rs:574-586 | a visible menu under a visible parent of a hidden one is served as a root |
| MenuPublic.FilterIsChainIff | src/application/service/menu_service.rs:574-586 | over any menu table the public filter keeps exactly the rows whose whole chain is visible if and only if no visible parent stands under a hidden one and every kept row has a way up to a root |
| MenuPublic.FilterIsChainWhenShallow | src/application/service/menu_service.rs:574-586 | over a table of depth at most two the first of the two conditions is enough |
| MenuPublic.GapHappens | src/application/service/menu_service.rs:574-586 | three accepted creates after which an anonymous visitor is served a grandchild as a root |
| Tours.TourStore.Upsert | src/application/service/tour_service.rs:103-184 | the upsert on the live name equals its specification |
| Tours.UpsertStores | src/application/service/tour_service.rs:103-184 | an upsert is accepted exactly within the bounds, stores the trimmed columns in the live row of the name or a new one, and touches no other row; a refusal writes nothing |
| Tours.VerbsFind | src/application/service/tour_service.rs:226-381 | delete, consumption and reset are not found without a live row of the trimmed name, and write nothing then |
| Tours.VerbsWrite | src/application/service/tour_service.rs:226-381 | a delete takes the live row out and keeps its facts; a reset keeps the row, drops exactly its facts and counts them |
| Tours.ConsumeWrites | src/application/service/tour_service.rs:262-317 | a consumption writes one fact, unless there was one, whose time it reports |
| Tours.TourStore.Consume | src/application/service/tour_service.rs:262-317 | the insert-or-report equals its specification |
| Tours.TourStore.Reset | src/application/service/tour_service.rs:346-381 | the reset drops exactly the tour's facts and reports their number |
| TourHistory.RunRefines | src/application/service/tour_service.rs:103-381 | after any run the two tables stand for one map from live name to definition and consumption times, and give the answers that map gives |
| TourHistory.ConsumeAnswers | src/application/service/tour_service.rs:262-317 | in any run a consumption is Consumed exactly when this principal has none since the name's last delete or reset, and otherwise reports the time of the first one since |
| TourHistory.LiveSince | src/application/service/tour_service.rs:103-257 | a name is live exactly when it was defined and not deleted since |
| TourHistory.ConsumedFor | src/application/service/tour_service.rs:321-341 | the consumed set in name order is exactly the map's times of the principal |
| Visitors.VisitorEngine.RecordHeartbeat | src/application/service/visitor_service.rs:187-252 | the heartbeat statement equals its specification |
| Visitors.VisitorEngine.MergeVisitor | src/application/service/visitor_service.rs:264-355 | the merge equals its specification for some row the locking select may return |
| Visitors.KnownBeat | src/application/service/visitor_service.rs:187-252 | a visitor the heartbeat knows is marked as seen, counted as a return after more than eight hours, and answered with its own token and state |
| Visitors.NewBeat | src/application/service/visitor_service.rs:187-252 | a visitor it does not know gets a new anonymous row with every column given, if the website exists; and else a refusal that writes nothing |
| Visitors.BeatTracks | src/application/service/visitor_service.rs:218-226 | the track of the page and url is written exactly when the visitor left none of that url in the last thirty minutes |
| Visitors.SelectedIs | src/application/service/visitor_service.rs:270-282 | the merge may find exactly the principal's own rows on the website that nobody holds locked |
| Visitors.ClaimIs | src/application/service/visitor_service.rs:305-330 | the claim changes the principal, the state and the time of the named row and nothing else; a missing or locked row is not found |
| Visitors.AbsorbIs | src/application/service/visitor_service.rs:283-304 | the absorb removes the named row, hands its tracks to the survivor and changes no other row |
| Visitors.BeatLeavesTrack | src/application/service/visitor_service.rs:219-226 | a heartbeat with a url leaves the url tracked within its last thirty minutes |
| Visitors.MergeKeepsTracks | src/application/service/visitor_service.rs:282-318 | a committed merge keeps every track, the absorbed row's now the survivor's, and the survivor holds the principal |
| Visitors.MergeTakesNoOthersIff | src/application/service/visitor_service.rs:282-330 | a committed merge leaves every row that is neither anonymous on the call's website nor the principal's own as it was, tracks included, if and only if the row it names is absent or one of those |
| Visitors.SecondLoginTakesOver | src/application/service/visitor_service.rs:305-330 | one heartbeat and two logins after which the second principal holds the first one's row and the first holds none |
| Visitors.SelfMergeRollsBack | src/application/service/visitor_service.rs:282-355 | a replay that names the identified row itself rolls back |
| Visitors.AbsorbTwice | src/application/service/visitor_service.rs:264-355 | repeating an absorbing merge changes nothing and answers the same survivor |
| VisitorRuns.TokensNeverChange | src/application/service/visitor_service.rs:187-355 | over any run of heartbeats, merges and sweeps no surviving row's token, digest or website changes |
| VisitorRuns.VisitsAreReturns | src/application/service/visitor_service.rs:211-217 | over any run the visit counter grows by exactly the number of the visitor's heartbeats more than eight hours after it was last connected |
| VisitorRuns.TracksAreApart | src/application/service/visitor_service.rs:218-226 | over any run with a monotone clock the tracks of one url of a visitor nothing was merged onto are at least thirty minutes apart |
| VisitorRuns.EveryBeatIsTracked | src/application/service/visitor_service.rs:218-226 | in any such run every heartbeat with a url leaves a track of it in its last thirty minutes |
| VisitorRuns.ReparentSpacing | src/application/service/visitor_service.rs:297-310 | after a reparenting the spacing holds exactly when the two rows' tracks were apart |
| VisitorGc.Sweep | src/application/service/visitor_gc.rs:37-95 | the batch loop ends whatever rows are locked and however the cutoff moves; its summary counts what it deleted and the batches it committed |
| VisitorGc.SweepIsSafe | src/application/service/visitor_gc.rs:49-67 | under any locks and cutoffs every deleted row was anonymous and past the latest cutoff, and is counted once |
| VisitorGc.DeletedWereStale | src/application/service/visitor_gc.rs:49-67 | under any locks and cutoffs whoever is deleted is bound to no principal and was last seen before the latest cutoff |
| VisitorGc.SurvivorsAre | src/application/service/visitor_gc.rs:37-95 | at a fixed cutoff without locks the survivors are exactly the visitors of principals and those seen since, as they were, with their tracks |
| VisitorGc.OldestFirst | src/application/service/visitor_gc.rs:49-67 | under any locks and cutoffs a deleted row is no newer than any row that was eligible, unlocked and still there when its batch was claimed and that its batch passed over |
| VisitorGc.OldestFirstUndisturbed | src/application/service/visitor_gc.rs:49-67 | without locks and at a fixed cutoff: after any number of batches no deleted row is newer than an eligible one that remains |
| VisitorGc.SweepIsComplete | src/application/service/visitor_gc.rs:37-95 | at a fixed cutoff without locks the sweep deletes exactly the eligible rows, reports their number, and commits ceil(number / batch) batches |
| RateBooks.Engine.Bump | src/application/service/intake_engine.rs:282-297 | the bump of one key equals its specification; no other key changes |
| RateBooks.Engine.ArmRateBuckets | src/application/service/intake_engine.rs:305-341 | the identity window for a session, then the address window unless the first refused; nothing without a pepper |
| RateBooks.BumpCounts | src/application/service/intake_engine.rs:282-297 | a bump is let through exactly while fewer than the limit were in this hour, is then counted, and touches no other key |
| RateBooks.AdmittedPerHour | src/application/service/intake_engine.rs:282-297 | over any monotone run each key lets through exactly min(limit, attempts) in each hour |
| RateBooks.AtMostTwiceTheLimit | src/application/service/intake_engine.rs:282-297 | at most twice the limit passes in any 3600 seconds |
| RateBooks.TwiceTheLimitHappens | src/application/service/intake_engine.rs:282-297 | for every limit that bound is met by a burst at each side of the hour |
| RateBooks.RetryReachesAFreshWindow | src/application/service/intake_engine.rs:291-294 | a refusal asks for 1 to 3600 seconds, and waiting that long reaches a later hour |
| RateBooks.RetryIsTheNextHour | src/application/service/intake_engine.rs:291-294 | the time a refusal names is the first second of the next hour, or one second when that has come |
| RateBooks.FirstOfTheHourPasses | src/application/service/intake_engine.rs:282-297 | the first attempt of an hour passes when the limit is not zero |
| RateBooks.KeysAreDisjoint | src/application/service/intake_engine.rs:269-341 | for colon-free verb names heartbeat, identity and address buckets never coincide |
| RateBooks.KeysMeetIff | src/application/service/intake_engine.rs:311-328 | for any two callers: two keys are one if and only if they are one caller of one arm, or one verb's name goes on where the other's mark stands and the rest of the longer key is what the other's caller wrote |
| RateBooks.ArmsShareIff | src/application/service/intake_engine.rs:305-328 | two arms have a bucket in common if and only if they are the same arm of the same verb, or one is an address arm and the other verb's name goes on where its mark stands; the name of an identity arm can be continued without harm, since its callers are digests |
| RateBooks.KeysAreInjective | src/application/service/intake_engine.rs:311-328 | outside that case distinct callers have distinct buckets |
| RateBooks.CallersAreApart | src/application/service/intake_engine.rs:311-328 | within one arm of one verb, whatever its name, distinct callers have distinct buckets |
| RateBooks.HeartbeatSharesIff | src/application/service/intake_engine.rs:269-328 | a verb shares a bucket with a website's heartbeats if and only if it is named "heartbeat:" and the uuid (address arm), or that followed by ":ip", and by nothing or a further ":" (either arm) |
| RateBooks.ColonSharesABucket | src/application/service/intake_engine.rs:269-328 | the address buckets of a verb of the heartbeat's name are the heartbeat's own |
| Slug.Kebab | src/application/service/slug.rs:44-63 | the automaton equals the lowercased maximal runs of ASCII letters and digits joined by dashes |
| Slug.FixedIffKebab | src/application/service/slug.rs:44-63 | the fold leaves a string alone exactly when it is kebab already; so it is idempotent |
| Slug.FoldedLetters | src/application/service/slug.rs:44-63 | the fold lets nothing out but lower-case ASCII letters, digits and dashes, keeps a word of those, and lowers upper-case ASCII letters |
| Slug.SlugFrom | src/application/service/slug.rs:66-95 | the slug verb equals its specification: the final fallback is never taken |
| Slug.SlugReads | src/application/service/slug.rs:66-95 | the slug is the SEO name's fold, or where that is empty the fallback's, or else "page", then a dash and the id, cut at 120 characters with a dash at the cut dropped |
| Slug.SeoNameDecides | src/application/service/slug.rs:66-78 | with an SEO name that folds to something the fallback is never looked at |
| Slug.UuidReads | src/application/service/slug.rs:79-86 | a uuid is written in groups of 8, 4, 4, 4 and 12 lower-case hexadecimal digits |
| Slug.IntReads | src/application/service/slug.rs:79-86 | an integer is written without its sign, in decimal digits without leading zeros |
| Slug.SlugShape | src/application/service/slug.rs:66-95 | the slug is 1 to 120 characters and a fixed point of the fold |
| Slug.IdIsRecoverable | src/application/service/slug.rs:66-95 | when base and id arm fit the cap the uuid, or the integer up to its sign, can be read back from the slug |
| Slug.UuidIsIdentified | src/application/service/slug.rs:66-95 | the slug tells a uuid from every other if and only if its base has at most 83 characters |
| Slug.IntsShareASlug | src/application/service/slug.rs:66-95 | two integers share a slug if and only if there is no room for a digit, they agree up to sign, or they agree on all the digits there is room for |
| Slug.IntIsIdentified | src/application/service/slug.rs:66-95 | the slug tells an integer, up to its sign, from every other if and only if there is room for one digit more than it has, or just for its digits and no longer integer begins with them |
| Slug.LongBaseLosesTheId | src/application/service/slug.rs:86-91 | a base that fills the cap gives every id the same slug |

## Left out

- Generated DTOs, repositories, CRUD handlers, seeders and exports: mechanical, over crates outside this repository.
- Captcha clients, environment parsing, header extraction, host normalization and error-to-status tables: input and output plumbing.
- Audit rows, actor stamps and JSON metadata: no verb reads them back, except the soft-delete mark, which is the `live` field.
- The HMAC digest, random bytes and uuid generation: parameters, taken as fresh where the source draws them.
- Request-pool and organisation-scope relaying: host integration.
- Column lengths and 32-bit columns of the migrations (visit counts, sequences), and their checks for blank columns other than a new page's title: a statement that breaks one is refused by the database and has no effect.
- MenuVerbs.Patch: accepts a blank name, which the database refuses where `ck_menus_name_required` is in place.
- The dormant language-alias row: a predicate that never fires, as its registry is empty.
- Website delete: it takes a website out of the live ones the theorems speak of, and touches no other table.
- The page and website patch arms other than url, homepage_url and default_lang_code: the theorems hold for any value of those columns.
- Concurrent heartbeats, merges and redirect patches: their claims are made for serial runs; the fork is the verb that promises to settle a race.
- FanoutLate.LateKeepsMeaningIff: lets other transactions commit between the fanout's list and its inserts, and takes the statements from the inserts on at one instant.
- RateBooks.ArmsShareIff: takes an address to be any text, as the engine does; the public routes hand it a socket address or the last hop of a forwarding header.
- Locks in the sweep and in the merge: which rows are locked is arbitrary, but the other transactions' writes are not interleaved.
- Query strings of redirect targets: a location is followed as the path it is, and one that is not site-absolute leaves the site.
- Routing.PublicResolve: takes the method already upper-cased and the website already resolved from the host.
- Websites.Create: takes the domain normalized, the default language trimmed and lower-cased, and the public principal as minted or bound.
- SiteHistory.PatchPageUrlKeepsHomes: models the url arm of the page patch only, since no other arm touches a url.
- SiteHistory.PatchHomepageUrlKeepsHomes: models the homepage_url arm of the website patch only.
- Visitors.VisitorEngine.RecordHeartbeat: the counter is unbounded, where the column is 32 bits wide; and a blank url, which the database refuses where `ck_visitor_tracks_url_required` is in place, is tracked.
- VisitorRuns.TracksAreApart: asks that nothing was merged onto the visitor, because a reparenting can bring two tracks together; `VisitorRuns.ReparentSpacing` says exactly when.
