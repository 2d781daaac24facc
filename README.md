# Lingua Franca documentation navigation and handbook e-book, in Dafny

This project models two pieces of the Lingua Franca web site in Dafny and proves properties of them.

The first is the documentation sidebar of
`packages/lingua-franca/src/lib/documentationNavigation.ts`:
- the `SidebarNavItem` tree;
- the language table of `getDocumentationNavForLanguage` and the generated `en` forest;
- the depth-first search `findInNav`;
- the page links `getNextPageID` and `getPreviousPageID`.

The second is the handbook e-book builder of `packages/handbook-epub/script/createEpub.ts`:
- the loop of `startEpub`, which turns the "Writing Reactors" section into numbered chapters;
- `addHandbookPage`, which looks a page up by its permalink and writes its chapter.

Modules:
- `Wrappers` (`wrappers.dfy`): `Option`.
- `NavTree` (`navtree.dfy`), pure:
  - the `NavItem` datatype, with `items` as its own `ItemList` datatype;
  - `findInNav` as `FindInForest` / `FindInItem`;
  - `EnclosingSection` (the section that owns an id), `FindIndex` (`findIndex`);
  - `GetNextPageID` / `GetPreviousPageID`, which return a `Neighbour`: `NoPage` for `undefined`, `Page(path, item)` for the object `{ path, ...item }`, and `Fault` for the TypeError raised when the next sibling has an empty `items` array;
  - the pre-order flattening `PreOrder`, the independent definition of the search order;
  - `DistinctIds`, which says that ids are unique.
- `NavData` (`navdata.dfy`):
  - the language table and the `en` forest, with every id, permalink, `chronological` flag and nesting of the generated constant;
  - the proof that its ids are unique;
  - facts about its page links.
- `HandbookEpub` (`handbook_epub.dfy`), imperative:
  - the EPUB stream as the class `EpubStream`, an append-only `seq` of chapters plus an `ended` flag;
  - `AddHandbookPage`;
  - `StartEpub`, split into three loop methods (`AddSectionPages`, `AddItemPages`, `AddSubitemPages`);
  - the reference function `EpubRun`, which says what a whole run writes. `StartEpub` is proved to do exactly that.

JavaScript truthiness is modelled explicitly:
- a permalink counts when it is present and non-empty (`Truthy`);
- `chronological` counts only when it is `true` (`IsChronological`);
- an `items` array counts even when it is empty (`Present([])`).

The markdown map built by `generateV2Markdowns`, the renderer `getHTML` and `replaceAllInString` are taken as parameters in the datatype `Setup`. `startEpub` receives the navigation forest (the source passes `getDocumentationNavForLanguage("en")`) and the intro text with its placeholders already replaced.

Two consequences of the code are worth stating:
- Content chapters are numbered from 0, the same index as the intro chapter: the intro is written with index 0 (createEpub.ts:81), and the counter starts at 0 (createEpub.ts:83).
- An item with both a permalink and `items` gives a chapter for its own permalink and then one for each sub-item, because the two `if`s at createEpub.ts:85 and :89 are independent.

## Model

| member | source | states |
|---|---|---|
| NavTree.FirstMatch | packages/handbook-epub/script/createEpub.ts:56 | `Array.prototype.find`: the result is the element at the first index satisfying the predicate; no result means no element satisfies it |
| NavTree.FindInForest | packages/lingua-franca/src/lib/documentationNavigation.ts:340-358 | soundness and completeness of `findInNav` over an array: a result satisfies the predicate and occurs in the forest; no result means no node of the forest satisfies the predicate |
| NavTree.FindInItem | packages/lingua-franca/src/lib/documentationNavigation.ts:349-357 | the same for one node, whose subtree is the node followed by its `items` |
| NavTree.FirstMatchAppend | packages/lingua-franca/src/lib/documentationNavigation.ts:345-348 | the first match of a concatenation is the first match of the first part, or else of the second: the short-circuit of the loop |
| NavTree.FindInForestIsFirstInPreOrder | packages/lingua-franca/src/lib/documentationNavigation.ts:344-348 | `findInNav` over a forest returns exactly the first node in pre-order (each node before its `items`, siblings in array order) that satisfies the predicate |
| NavTree.FindInItemIsFirstInPreOrder | packages/lingua-franca/src/lib/documentationNavigation.ts:350-356 | the same for one node: the node is examined before its `items` |
| NavTree.EnclosingSection | packages/lingua-franca/src/lib/documentationNavigation.ts:362 | the search with the predicate `!!i.items && !!i.items.find(i => i.id === currentID)` in both directions: a section it finds lies in the forest, has `items`, and one of them carries the id; when it finds none, no node of the forest has an item carrying the id |
| NavTree.FindIndex | packages/lingua-franca/src/lib/documentationNavigation.ts:367 | `findIndex`: -1 exactly when no item carries the id, otherwise the first position carrying it |
| NavTree.NextTarget | packages/lingua-franca/src/lib/documentationNavigation.ts:369-380 | the target of a next link never means "no page"; it faults exactly when the next item has an empty `items` array; otherwise it carries that item, with the item's own permalink as path when it has no `items`, and else the permalink of the node right after it in pre-order, its first sub-item |
| NavTree.GetNextPageID | packages/lingua-franca/src/lib/documentationNavigation.ts:360-382 | a next page is always a node of the forest |
| NavTree.GetPreviousPageID | packages/lingua-franca/src/lib/documentationNavigation.ts:384-401 | a previous page never faults, is a node of the forest, and its path is its own permalink: previous never flattens |
| NavTree.DistinctIdsSplit | packages/lingua-franca/src/lib/documentationNavigation.ts:9-16 | unique ids in a concatenation give unique ids in each part and none shared between them |
| NavTree.PreOrderMember | packages/lingua-franca/src/lib/documentationNavigation.ts:344-356 | a node of the forest is a node of the subtree of one of its top-level items |
| NavTree.RootInPreOrder | packages/lingua-franca/src/lib/documentationNavigation.ts:344-346 | every top-level item is a node of the forest |
| NavTree.ChildInPreOrder | packages/lingua-franca/src/lib/documentationNavigation.ts:352-354 | the `items` of a node of the forest are nodes of the forest |
| NavTree.SameParent | packages/lingua-franca/src/lib/documentationNavigation.ts:362 | with unique ids, two sections holding a child with the same id are the same section |
| NavTree.ChildrenDistinct | packages/lingua-franca/src/lib/documentationNavigation.ts:367 | with unique ids, the `items` of any section have distinct ids |
| NavTree.TopLevelIsNoChild | packages/lingua-franca/src/lib/documentationNavigation.ts:362-363 | with unique ids, no top-level item is among the `items` of a node |
| NavTree.EnclosingSectionOfChild | packages/lingua-franca/src/lib/documentationNavigation.ts:362 | with unique ids, the section found for a child of `s` is `s` |
| NavTree.NextPageOfChild | packages/lingua-franca/src/lib/documentationNavigation.ts:363-381 | with unique ids, the next page of child `k` of a section: none when the section is not chronological or `k` is last; otherwise child `k + 1` with its first sub-item's permalink when it has `items` (a fault when they are empty), or else its own permalink |
| NavTree.PreviousPageOfChild | packages/lingua-franca/src/lib/documentationNavigation.ts:388-400 | with unique ids, the previous page of child `k`: none when the section is not chronological or `k` is first; otherwise child `k - 1` with its own permalink, even when it is a container |
| NavTree.NonChronologicalSectionIsolated | packages/lingua-franca/src/lib/documentationNavigation.ts:364-389 | with unique ids, no child of a section without `chronological: true` has a next or a previous page |
| NavTree.NonChronologicalRootIsolated | packages/lingua-franca/src/lib/documentationNavigation.ts:364-389 | with unique ids, the same for a top-level section given by position |
| NavTree.UnknownIdHasNoNeighbours | packages/lingua-franca/src/lib/documentationNavigation.ts:362-388 | an id no node carries has neither a next nor a previous page |
| NavTree.TopLevelHasNoNeighbours | packages/lingua-franca/src/lib/documentationNavigation.ts:362-388 | with unique ids, a top-level section has neither a next nor a previous page |
| NavTree.PreviousUndoesNext | packages/lingua-franca/src/lib/documentationNavigation.ts:360-401 | with unique ids, when the next page of `id` has no `items`, the previous page of that page is the page carrying `id`, with its own permalink as path |
| NavTree.PreviousPageIsSibling | packages/lingua-franca/src/lib/documentationNavigation.ts:386-400 | a previous page is the item just before `id` in a chronological section |
| NavTree.NextUndoesPrevious | packages/lingua-franca/src/lib/documentationNavigation.ts:360-401 | with unique ids and no empty `items` arrays, the next page of the previous page of `id` is the node carrying `id` |
| NavData.Pages | packages/lingua-franca/src/lib/documentationNavigation.ts:27-333 | a list of generated pages: one page per entry, each a leaf whose permalink lies under `/docs/handbook/` |
| NavData.En | packages/lingua-franca/src/lib/documentationNavigation.ts:27-333 | the `en` forest has seven top-level sections without permalinks, all with `items`; the first five are chronological and the last two are not; every page is a leaf whose permalink lies under `/docs/handbook/` |
| NavData.GetDocumentationNavForLanguage | packages/lingua-franca/src/lib/documentationNavigation.ts:20-24 | every language key yields the `en` forest |
| NavData.UnknownLanguageFallsBack | packages/lingua-franca/src/lib/documentationNavigation.ts:23-24 | any key gives the same forest as "en" |
| NavData.TaggedFromMeaning | packages/lingua-franca/src/lib/documentationNavigation.ts:49-147 | the recursive tag check means every page id from a position on carries the tag |
| NavData.AbsentFromMeaning | packages/lingua-franca/src/lib/documentationNavigation.ts:49-147 | the recursive absence check means no page id from a position on equals the given id |
| NavData.DistinctFromMeaning | packages/lingua-franca/src/lib/documentationNavigation.ts:49-147 | the recursive distinctness check means the page ids from a position on are pairwise distinct |
| NavData.CheckedSection | packages/lingua-franca/src/lib/documentationNavigation.ts:27-333 | a section whose page ids pass the tag and distinctness checks has leaf pages with distinct ids all carrying the section's tag |
| NavData.LeafPreOrder | packages/lingua-franca/src/lib/documentationNavigation.ts:27-333 | the pre-order of a list of leaves is the list itself |
| NavData.DistinctIdsJoin | packages/lingua-franca/src/lib/documentationNavigation.ts:27-333 | two lists with unique ids and no shared id join into a list with unique ids |
| NavData.TaggedForestDistinct | packages/lingua-franca/src/lib/documentationNavigation.ts:27-333 | a forest of tagged sections with distinct section ids has unique ids throughout |
| NavData.SectionIdsDistinct | packages/lingua-franca/src/lib/documentationNavigation.ts:29-289 | the seven top-level sections of `en` have distinct ids |
| NavData.EnIdsDistinct | packages/lingua-franca/src/lib/documentationNavigation.ts:27-333 | every id of the `en` forest is unique |
| NavData.PreliminaryDevelopmentHasNoNeighbours | packages/lingua-franca/src/lib/documentationNavigation.ts:255-287 | no page of the non-chronological "Preliminary Development" section has a previous or a next page |
| NavData.LessDevelopedTopicsHasNoNeighbours | packages/lingua-franca/src/lib/documentationNavigation.ts:288-332 | no page of the non-chronological "Less Developed Topics" section has a previous or a next page |
| NavData.OverviewLinksForward | packages/lingua-franca/src/lib/documentationNavigation.ts:28-48 | the next page of "0-overview" is the tutorial video, with path "/docs/handbook/tutorial-video" |
| NavData.TutorialVideoLinksBack | packages/lingua-franca/src/lib/documentationNavigation.ts:28-48 | the previous page of "0-tutorial-video" is the overview, with path "/docs/handbook/overview" |
| NavData.TutorialVideoIsLast | packages/lingua-franca/src/lib/documentationNavigation.ts:28-48 | the last page of "Resources" has no next page: nothing wraps into the following section |
| NavData.FirstReactorIsFirst | packages/lingua-franca/src/lib/documentationNavigation.ts:49-60 | the first page of "Writing Reactors" has no previous page: nothing wraps back into the section before |
| HandbookEpub.Unwrap | packages/handbook-epub/script/createEpub.ts:106-108 | an unwrapped body is exactly what sits between the prefix for the chapter's title and the suffix `</div>` |
| HandbookEpub.PageChapter | packages/handbook-epub/script/createEpub.ts:106-114 | a page chapter has the markdown's `data.title` as title and the given index, and its markup unwraps to the rendered HTML after the one link rewrite: the frame of prefix and suffix round-trips through `Unwrap` |
| HandbookEpub.EpubStream.constructor | packages/handbook-epub/script/createEpub.ts:57 | a new stream holds no chapters and is not ended |
| HandbookEpub.EpubStream.Write | packages/handbook-epub/script/createEpub.ts:114 | `write` appends exactly one chapter and changes nothing else |
| HandbookEpub.EpubStream.End | packages/handbook-epub/script/createEpub.ts:97 | `end` marks the stream ended and keeps its chapters |
| HandbookEpub.AddHandbookPage | packages/handbook-epub/script/createEpub.ts:100-115 | a page is looked up by its permalink; when it is found, exactly its chapter is appended, with the given index; when it is missing (an `undefined` permalink included), nothing is written and the error is reported |
| HandbookEpub.SubKeysAt | packages/handbook-epub/script/createEpub.ts:89-93 | the inner loop visits the sub-items' permalinks in array order, one per sub-item |
| HandbookEpub.ItemKeysOrder | packages/handbook-epub/script/createEpub.ts:84-95 | one item gives its own permalink first exactly when it is truthy, followed by the permalinks of its sub-items in order |
| HandbookEpub.SubKeysPrefix | packages/handbook-epub/script/createEpub.ts:90-93 | the permalinks of fewer sub-items are a prefix of those of more |
| HandbookEpub.KeysPrefix | packages/handbook-epub/script/createEpub.ts:84-95 | the permalinks visited for fewer items are a prefix of those visited for more |
| HandbookEpub.SubKeysLength | packages/handbook-epub/script/createEpub.ts:90-93 | `n` sub-items give `n` permalinks |
| HandbookEpub.KeysAtStep | packages/handbook-epub/script/createEpub.ts:90-93 | each pass of the inner loop visits one more sub-item's permalink |
| HandbookEpub.KeysAtEnds | packages/handbook-epub/script/createEpub.ts:85-94 | the inner loop starts after the item's own permalink, when it counts, and ends where the next item starts |
| HandbookEpub.KeysAtPrefix | packages/handbook-epub/script/createEpub.ts:84-95 | every point of the nested loops has visited a prefix of the whole order |
| HandbookEpub.KeysOfFirstCount | packages/handbook-epub/script/createEpub.ts:84-95 | the first `n` items give as many permalinks as they have items with a permalink plus sub-items |
| HandbookEpub.PageKeysCount | packages/handbook-epub/script/createEpub.ts:84-95 | the loop visits one permalink per item with a truthy permalink plus one per sub-item |
| HandbookEpub.LeafKeys | packages/handbook-epub/script/createEpub.ts:84-95 | for a section of leaves with permalinks, the loop visits them item by item |
| HandbookEpub.Emit | packages/handbook-epub/script/createEpub.ts:86-104 | lookups stop at the first missing permalink: the pages found are at most the keys, all of them exactly when the run is complete, and otherwise the key after the last one found is missing |
| HandbookEpub.EmitFound | packages/handbook-epub/script/createEpub.ts:101 | every page found is the markdown stored under the permalink at its position |
| HandbookEpub.EmitSnoc | packages/handbook-epub/script/createEpub.ts:86-91 | one more permalink after a complete run adds its page, or stops the run when it is missing |
| HandbookEpub.EmitStops | packages/handbook-epub/script/createEpub.ts:101-104 | once a permalink is missing, later permalinks change nothing |
| HandbookEpub.EmitPrefix | packages/handbook-epub/script/createEpub.ts:84-95 | the pages found for a prefix of the permalinks are a prefix of the pages found for all of them: chapters already written stay written |
| HandbookEpub.Chapters | packages/handbook-epub/script/createEpub.ts:83-94 | one chapter per page |
| HandbookEpub.ChaptersSnoc | packages/handbook-epub/script/createEpub.ts:87-93 | a further page adds its chapter at the end, with the next index |
| HandbookEpub.ChaptersAt | packages/handbook-epub/script/createEpub.ts:83-94 | chapter `k` renders page `k` with index `k` |
| HandbookEpub.WrittenAt | packages/handbook-epub/script/createEpub.ts:83-101 | chapter `k` is the chapter of the markdown stored under the `k`-th permalink visited, with index `k` |
| HandbookEpub.EmitAppends | packages/handbook-epub/script/createEpub.ts:106-114 | writing a found page appends its chapter after everything on the stream |
| HandbookEpub.EpubRun | packages/handbook-epub/script/createEpub.ts:53-97 | the intro chapter (the book's title, the edited intro, index 0) is always chapter 0; the stream is ended exactly when the run finished; a reported missing permalink really has no markdown |
| HandbookEpub.RunFinishes | packages/handbook-epub/script/createEpub.ts:84-97 | when every permalink is found, the run writes the intro, then all chapters, and ends the stream |
| HandbookEpub.RunStops | packages/handbook-epub/script/createEpub.ts:84-104 | when the first missing permalink follows `done`, the run writes the intro and the chapters of `done`, reports that permalink, and leaves the stream open |
| HandbookEpub.VisitedNothing | packages/handbook-epub/script/createEpub.ts:81-83 | before the loop, the counter is 0, no permalink has been visited and only the intro is on the stream |
| HandbookEpub.AddSubitemPages | packages/handbook-epub/script/createEpub.ts:89-94 | the inner loop writes each sub-item's page with the running counter; it leaves the state of the next item or stops at the first missing page |
| HandbookEpub.AddItemPages | packages/handbook-epub/script/createEpub.ts:84-95 | one item: its own truthy permalink first, then its sub-items when it has `items` (both when it has both) |
| HandbookEpub.AddSectionPages | packages/handbook-epub/script/createEpub.ts:83-95 | the outer loop, with the counter starting at 0, writes the chapters of all permalinks in visiting order, or stops after the pages before the first missing one |
| HandbookEpub.StartEpub | packages/handbook-epub/script/createEpub.ts:53-97 | the stream's chapters, its ended flag and the outcome are exactly those of `EpubRun` |
| HandbookEpub.NoHandbookOnlyIntro | packages/handbook-epub/script/createEpub.ts:56-84 | without a top-level "Writing Reactors" section, only the intro is written and the stream is never ended |
| HandbookEpub.ContentChapters | packages/handbook-epub/script/createEpub.ts:83-114 | content chapter `k` is the page stored under the `k`-th permalink visited, rendered with index `k`, and there are no more chapters than permalinks |
| HandbookEpub.ContentIndices | packages/handbook-epub/script/createEpub.ts:81-94 | after the intro, chapter `k` has index `k - 1`: the counter starts at 0 and rises by one per page |
| HandbookEpub.FinishedChapterCount | packages/handbook-epub/script/createEpub.ts:84-97 | a finished run holds the intro plus one chapter per item with a permalink plus one per sub-item |
| HandbookEpub.StopsAtFirstMissing | packages/handbook-epub/script/createEpub.ts:97-104 | when permalink `n` is the first one missing, the run reports it, writes exactly the `n` pages before it, and never ends the stream |
| HandbookEpub.EnglishHandbookPages | packages/handbook-epub/script/createEpub.ts:53-95 | on the `en` forest the "Writing Reactors" section is found, and the loop visits its fifteen page permalinks in their order |

## Left out

- Streampub, the EPUB container, `pipe` into a file and the final stream flush: the stream is modelled only by the chapters written to it and whether `end()` was called.
- The cover image, the PNG logo and the stylesheet file written before the intro (createEpub.ts:62-68): file reads whose content the model does not carry.
- `mkdirSync` of the output folder and the `process.once("exit")` hook that copies the book: file system effects.
- The intro template read with `jetpack.read` and its `%%DATE%%` / `%%COMMIT_SHA%%` substitution: these depend on the clock, the locale and git. The edited intro is a parameter of `StartEpub`.
- `generateV2Markdowns`, `getHTML`, `getGitSHA` and `replaceAllInString` come from setupPages.js, which is not part of this model. The markdown map and the two string functions are parameters. The model claims nothing about them beyond `replaceAllInString` being applied once, to the rendered HTML, with the single pair `a href="/` → `a href="https://www.lf-lang.org/`.
- The error message of `addHandbookPage`, which lists every key of the map: the model reports the missing permalink as `MissingMarkdown(key)`.
- `async`/`await`: the pages are written one after the other, so the loop is sequential.
- Page titles and `oneline` texts of the `en` forest: page titles are empty strings and `oneline` is absent. Section titles, ids, permalinks, `chronological` flags and the nesting are all kept.
- NavTree.GetNextPageID: when the next sibling has an empty `items` array, the source raises a TypeError. The model returns `Fault` instead, and NavTree.NextUndoesPrevious excludes empty `items` arrays.
- NavTree.FindInForest: the predicate given to `findInNav` is a total function on nodes. The source's `i && ...` guard against a missing node cannot fail on a tree.
