# Knowledge-base maintenance, modelled in Dafny

This project models the maintenance logic of a documentation knowledge base.
The knowledge base is two database tables:

- `resources`: scraped documentation pages;
- `media`: described images, whose `resourceId` names a resource but is not a foreign key.

Four scripts and two library functions act on those tables:

- `scrap()` ingests a newline-separated url list. Each line either reconciles the `.png` images of an existing resource or scrapes and creates a new resource.
- `describeImageFromUrl` runs the checks an image must pass before it is described.
- Three repair jobs:
  - `cleanupDuplicates()` collapses resources that share a trimmed url, deleting each removed resource's media first.
  - `cleanupMediaDuplicates()` keeps the oldest valid media row per url and deletes the rest in batches of 100.
  - `cleanupOrphanedMedia()` deletes, in batches of 100, the media whose `resourceId` names no resource.
- `getMediasDescriptionFromUrl` looks up image descriptions by query-stripped url.

How the model is built:

- The database is a `Store` class (module `Database`) with one `seq` field per table.
- Each script is a method on the store, in the imperative form of the source. Its loops carry invariants.
- Each method's postcondition ties the new state and the report to a pure function of the old state:
  - `Run` for the ingestion;
  - `Collapse` for resource duplicates;
  - `Dedup` for media duplicates;
  - `Purge` for orphans.
- The lemmas prove what the scripts promise about those functions: which rows survive, that a recheck finds nothing, that a second run is a no-op, and the counts each script reports.
- The lookup and the describe guard chain are pure functions.

The external services are deterministic function parameters of an `Env` or `Collaborators` value:

- the Firecrawl scrape;
- `createResource`;
- the image-url regex;
- `fetch`;
- the Gemini call;
- the clock that stamps `createdAt`.

The lookup is a function of the media table and so cannot change either table.

Where the code's own comments and log messages promise more than the code
does, the model follows the code:

- `scripts/cleanupDuplicates.ts:39` says the first resource kept is the oldest. The code keeps the first row of each group in the order the unordered select returned (`scripts/cleanupDuplicates.ts:40`). The model keeps the first row in table order.
- `scripts/cleanupMediaDuplicates.ts:91` announces that the first occurrence of each url is kept. The code sorts each group by `createdAt` (`scripts/cleanupMediaDuplicates.ts:99-102`) and keeps the oldest row, which the model does.
- `lib/actions/media.ts:6-8` strips query strings from the requested urls only. A stored url with a query string is never found. The media dedup compares stored urls exactly as they are (`scripts/cleanupMediaDuplicates.ts:42`).
- The log line at `scripts/scrap.ts:71` says all images already exist, but the check before it (`scripts/scrap.ts:70`) compares only the number of extracted urls with the number of media rows.
- A resource created by a line gets no media in that run: image reconciliation runs only for resources that already exist (`scripts/scrap.ts:47-106`).
- The ingestion is not idempotent in two cases, both proved as lemmas:
  - a line ending in `\r` is stored untrimmed (`scripts/scrap.ts:125`) but looked up trimmed (`scripts/scrap.ts:33`), so it is created again on every run;
  - an image url repeated in one page is inserted once per occurrence.
- The media job's final check (`scripts/cleanupMediaDuplicates.ts:143-160`) groups the whole remaining table, orphans included. It can report duplicates that the job, which only looks at valid rows, did not leave.

## Model

| member | source | states |
|---|---|---|
| Text.Trim | scripts/scrap.ts:33 | the result has no whitespace at either end and is no longer than the input |
| Text.TrimIsInfix | scripts/scrap.ts:33 | `trim` removes only whitespace, and only from the two ends: the result is an infix between two all-whitespace pieces |
| Text.TrimOfTrimmed | scripts/scrap.ts:33 | a string without whitespace at either end is left unchanged |
| Text.TrimIdempotent | scripts/cleanupDuplicates.ts:19 | trimming a trimmed url changes nothing |
| Text.TrimDropsCarriageReturn | scripts/scrap.ts:33 | a line ending in `\r` is changed by trimming |
| Text.Split | scripts/scrap.ts:22 | `split` on one character gives at least one piece; no piece holds the separator; the first piece is a prefix; there is one piece exactly when the separator is absent |
| Text.JoinSplit | scripts/scrap.ts:22 | joining the pieces with the separator gives back the input, so splitting loses no character |
| Text.SplitFirstPiece | lib/actions/media.ts:8 | the first piece stops at the first separator |
| Seqs.Batches | scripts/cleanupMediaDuplicates.ts:128-129 | each slice holds between 1 and `n` ids; every slice but the last holds exactly `n`; there are no slices exactly when the list is empty |
| Seqs.FlattenBatches | scripts/cleanupOrphanedMedia.ts:92-93 | the slices concatenate to the delete list, in order |
| Seqs.SortBy | scripts/cleanupMediaDuplicates.ts:100-102 | the numeric-comparator sort returns a permutation of its input, ascending in rank |
| Seqs.SortByHead | scripts/cleanupMediaDuplicates.ts:100-105 | the sort is stable at its head: the element placed first is the earliest element of least rank |
| Seqs.SortByHeadIsFirstMin | scripts/cleanupMediaDuplicates.ts:99-105 | the kept row has the least rank, and every row before it in the input ranks strictly higher |
| Grouping.BuildGroups | scripts/cleanupMediaDuplicates.ts:41-47 | the `forEach`/`push` loop builds exactly the grouping `GroupBy` |
| Grouping.GroupBy | scripts/cleanupMediaDuplicates.ts:39-47 | the `Map` of arrays after pushing every row in order, kept as a list of groups in first-insertion order; its properties are the `GroupBy*` lemmas |
| Grouping.AddTo | scripts/cleanupMediaDuplicates.ts:43-46 | `has`/`set`/`get().push` on that map: append to the key's group, or open a new group at the end |
| Grouping.PushTo | scripts/cleanupMediaDuplicates.ts:43-46 | the array update of one push equals `AddTo` |
| Grouping.GroupByItems | scripts/cleanupMediaDuplicates.ts:39-47 | each group is non-empty and holds exactly the rows with its key, in input order |
| Grouping.GroupByKeysDistinct | scripts/cleanupOrphanedMedia.ts:47-54 | no two groups share a key |
| Grouping.GroupByCovers | scripts/cleanupOrphanedMedia.ts:48-54 | every row's key has a group |
| Grouping.GroupBySizes | scripts/cleanupOrphanedMedia.ts:48-54 | the group sizes add up to the number of rows grouped |
| Grouping.Duplicates | scripts/cleanupDuplicates.ts:28-29 | the kept groups are exactly the groups of more than one row |
| Grouping.DuplicatesIffRepeatedKey | scripts/cleanupDuplicates.ts:78-81 | the grouping has no duplicate group exactly when no two rows share a key |
| Grouping.DroppedIffNotFirst | scripts/cleanupDuplicates.ts:40 | with `[keep, ...rest]`, a row is dropped exactly when it is not the first row with its key |
| Grouping.SortedDroppedIffNotFirst | scripts/cleanupMediaDuplicates.ts:98-105 | with each group sorted, a row is dropped exactly when it is not the first, by rank, of the rows with its key |
| Grouping.DropHeadsLength | scripts/cleanupMediaDuplicates.ts:53-57 | the dropped rows number one less than each group's size, summed |
| Grouping.DropHeadsSortBy | scripts/cleanupDuplicates.ts:28-30 | reordering the groups by size changes only the order of the dropped rows |
| Grouping.SortItemsDuplicates | scripts/cleanupMediaDuplicates.ts:53-58 | keeping only the groups of more than one row drops the same rows as using every group |
| Schema.ResourcesWithUrl | scripts/scrap.ts:35 | the select returns exactly the resources whose url equals the argument |
| Schema.MediaOf | scripts/scrap.ts:58 | the select returns exactly the media whose `resourceId` is the id, each row as often as the table holds it, so its length (compared at `scripts/scrap.ts:70`) is the number of such rows |
| Schema.WithUrl | scripts/cleanupDuplicates.ts:18 | keeps exactly the resources with a present, non-empty url |
| Schema.Orphans | scripts/cleanupOrphanedMedia.ts:21-23 | keeps exactly the rows whose `resourceId` is set and names no resource |
| Schema.ValidMedia | scripts/cleanupMediaDuplicates.ts:32-34 | keeps exactly the rows that are not orphans |
| Schema.OrphansPartition | scripts/cleanupMediaDuplicates.ts:21-34 | every row is in exactly one of the orphan and valid filters |
| Schema.DeleteMedia | scripts/cleanupMediaDuplicates.ts:130 | `delete ... where id in` keeps exactly the rows whose id is not listed |
| Schema.DeleteMediaOf | scripts/cleanupDuplicates.ts:50 | keeps exactly the rows whose `resourceId` is not listed |
| Schema.DeleteResources | scripts/cleanupDuplicates.ts:54 | keeps exactly the resources whose id is not listed |
| Schema.DeleteMediaTwice | scripts/cleanupMediaDuplicates.ts:128-131 | deleting one batch after another equals deleting their concatenation |
| Schema.DeleteMediaDistinct | scripts/cleanupMediaDuplicates.ts:130 | deleting rows keeps the media ids distinct |
| Schema.FreshId | scripts/scrap.ts:79-84 | a new row's id is non-empty and not used by any resource, media row or `resourceId` |
| Database.Store.InsertResource | scripts/scrap.ts:125-132 | the resource is appended and the media table is unchanged |
| Database.Store.InsertMedia | scripts/scrap.ts:79-84 | the media row is appended and the resources are unchanged |
| Database.Store.DeleteMediaWhereResourceId | scripts/cleanupDuplicates.ts:50 | afterwards no media row names the id, and only such rows are gone |
| Database.Store.DeleteResourceWhereId | scripts/cleanupDuplicates.ts:54 | only the resource with that id is gone |
| Database.Store.DeleteMediaWhereIdIn | scripts/cleanupMediaDuplicates.ts:130 | only the listed media rows are gone |
| Database.Store.DeleteMediaInBatches | scripts/cleanupMediaDuplicates.ts:123-136 | sends exactly the slices `Batches(ids, 100)`; `deletedCount` ends at the list's length; the media table loses exactly the listed ids; ids stay distinct |
| DescribeImages.CheckResponse | lib/google/describeImages.ts:10-25 | gives the guard failures in code order: not ok, then SVG and GIF whatever the size, then more than 17,000,000 bytes, then a missing type. Success happens exactly when all checks pass, and carries the Content-Type |
| DescribeImages.DescribeImageFromUrl | lib/google/describeImages.ts:3-67 | a missing key fails before any call; a failed check fails with its own message; once the checks pass, a thrown model error fails with its message and empty text fails with "Failed to generate description"; success happens exactly when the key is set, the checks pass and the model returns non-empty text, and then the result is that Content-Type and that text |
| DescribeImages.SizeLimitIsStrict | lib/google/describeImages.ts:20 | exactly 17,000,000 bytes pass and one more byte fails with "File too large" |
| DescribeImages.TypeBeforeSize | lib/google/describeImages.ts:18-20 | an oversized SVG or GIF reports its type error, and an oversized file without a type reports the size |
| Scrap.KeepUrlLines | scripts/scrap.ts:22 | keeps exactly the non-empty lines that do not start with `#` |
| Scrap.KeepUrlLinesAppend | scripts/scrap.ts:22 | the filter keeps file order |
| Scrap.ParseUrlListLines | scripts/scrap.ts:22 | the parsed lines are exactly the url lines among the newline-split pieces, and none holds a newline |
| Scrap.ParseUrlList | scripts/scrap.ts:21-22 | the url list of the file: its properties are `KeepUrlLines` and `ParseUrlListLines` |
| Scrap.IsRecoverable | scripts/scrap.ts:87-98 | the four describe messages the image loop swallows; `FatalMessages` and `RecoverableDescribeErrors` say which failures they are |
| Scrap.FirstTruthy | scripts/scrap.ts:121-122 | `a \|\| b \|\| ''` picks the first non-empty present string, else the empty string |
| Scrap.ReconcileImages | scripts/scrap.ts:74-105 | the image loop either finishes or throws, and it throws only with a message outside the four recoverable ones; both directions are proved by the lemmas below |
| Scrap.FatalAt | scripts/scrap.ts:75-103 | an extracted url aborts the loop when the resource has no media for it and describing it fails with a message outside the four recoverable ones |
| Scrap.StoredAt | scripts/scrap.ts:75-85 | an extracted url is stored when the resource has no media for it and describing it succeeds |
| Scrap.FirstFatal | scripts/scrap.ts:74-103 | the position of the first url that aborts the loop, or the list's length: every url before it does not abort |
| Scrap.StoredUrls | scripts/scrap.ts:74-85 | the reference filter: exactly the urls that are stored, in order and with repetitions |
| Scrap.ReconcileImagesAbortsOnFatal | scripts/scrap.ts:86-103 | the loop throws exactly when some url the resource has no media for fails to describe with a non-recoverable message, and it throws the first such message |
| Scrap.ReconcileImagesStoresDescribed | scripts/scrap.ts:74-84 | the appended rows' urls are, in order, exactly the stored urls before the first aborting one |
| Scrap.ReconcileImagesCompletes | scripts/scrap.ts:74-105 | when the loop ends normally, every stored url has its row, in order, and no other url has one |
| Scrap.ReconcileImagesRowContents | scripts/scrap.ts:78-84 | each appended row holds the Content-Type and text that describing its url returned, names the resource, and carries the clock's time |
| Scrap.ScrapLine | scripts/scrap.ts:30-145 | one iteration of the url loop: reconcile the first resource whose url is the trimmed line, else scrape the raw line and create its resource; its effects are the `ScrapLineEffect`, `ExistingResourceOnlyAddsItsMedia` and `NewUrlCreatesOneResource` lemmas |
| Scrap.ScrapLines | scripts/scrap.ts:30-146 | the url loop: go on after each line, stop without error on `break`, fail on a throw; `ScrapLinesGrows` and `ScrapLinesAttached` state its effect |
| Scrap.Run | scripts/scrap.ts:13-149 | `scrap()`: fail when the resources table is empty, otherwise run the loop over the parsed url list; `RunEffect` states its effect |
| Scrap.ReconcileMedia | scripts/scrap.ts:74-105 | the image loop on the store ends as `ReconcileImages` says and leaves the store in the state it gives |
| Scrap.ScrapUrl | scripts/scrap.ts:30-145 | one iteration on the store ends (continue, break or throw) as `ScrapLine` says and leaves the store in the state it gives |
| Scrap.Scrap | scripts/scrap.ts:13-149 | the outcome and the final tables are those of `Run` on the initial tables |
| Scrap.AddMediaValid | scripts/scrap.ts:79-84 | inserting a media row keeps ids distinct |
| Scrap.AddResourceValid | scripts/scrap.ts:125-132 | creating a resource keeps ids distinct |
| Scrap.ReconcileImagesEffect | scripts/scrap.ts:74-84 | reconciling keeps the resources and only appends media rows of the owner, each for an extracted url with no media in the list loaded before the loop |
| Scrap.ExistingResourceOnlyAddsItsMedia | scripts/scrap.ts:33-84 | for a line whose trimmed url has a resource, nothing is scraped or created; the only writes are media rows of that resource, each for an extracted url it had no media for |
| Scrap.ReconcileIgnoresScrapeAndCreate | scripts/scrap.ts:74-105 | the image loop does not depend on the scraper or on `createResource` |
| Scrap.SkipWhenCountsMatch | scripts/scrap.ts:52-73 | with no extracted url, or as many as the resource has media, the line writes nothing |
| Scrap.RepeatedImageInsertedTwice | scripts/scrap.ts:74-84 | an unstored image url occurring twice in a page is inserted twice |
| Scrap.FatalMessages | scripts/scrap.ts:86-103 | the four guard messages are recoverable; the missing-key and empty-text messages are not |
| Scrap.RecoverableDescribeErrors | scripts/scrap.ts:86-103 | a describe failure is swallowed exactly when the key is set and either a check on the response failed, or a thrown error carries one of the four messages |
| Scrap.ScrapeFailureAborts | scripts/scrap.ts:114-116 | an unsuccessful scrape fails the run with `Failed to crawl: …`, and that line writes nothing |
| Scrap.CreateFailureEndsLoop | scripts/scrap.ts:135-138 | a failing `createResource` ends the loop; the run completes and skips the remaining lines |
| Scrap.NewUrlCreatesOneResource | scripts/scrap.ts:112-132 | a new url with markdown appends exactly one resource: the untrimmed line as url, the markdown as content, source `ableton_docs_v12`, a fresh id, and no media. Without markdown nothing is written |
| Scrap.UntrimmedLineNotFoundAgain | scripts/scrap.ts:125-126 | a resource created from a line ending in `\r` is not found by that line's trimmed lookup |
| Scrap.TrimmedLineFoundAfterCreate | scripts/scrap.ts:33-35 | a resource created from a trimmed line is found by the next lookup of that line |
| Scrap.ScrapLineEffect | scripts/scrap.ts:30-145 | one iteration only appends rows, keeps ids distinct, and attaches every new media row to a resource whose content mentions its url |
| Scrap.ScrapLinesGrows | scripts/scrap.ts:30-146 | the url loop only appends rows and keeps ids distinct |
| Scrap.ScrapLinesAttached | scripts/scrap.ts:74-84 | every media row the run adds belongs to a resource whose extracted image urls include it |
| Scrap.SnapshotGuardUnreachable | scripts/scrap.ts:36-44 | a url the table lookup misses is in no resource of the snapshot taken before the loop, so the "found on the database but not in the where clause" error is never raised |
| Scrap.ReconciledRunIsNoOp | scripts/scrap.ts:70-73 | a run over lines that all name resources with matching image counts completes and writes nothing |
| Scrap.RunEffect | scripts/scrap.ts:24-28 | an empty resources table fails the run before any line, with nothing written; otherwise the run only appends rows and keeps ids distinct |
| CleanupDuplicates.GroupByTrimmedUrl | scripts/cleanupDuplicates.ts:16-25 | the `forEach` builds the grouping by trimmed url of the resources that have a url |
| CleanupDuplicates.UrlGroups | scripts/cleanupDuplicates.ts:16-25 | the resources with a url grouped by trimmed url in first-seen order |
| CleanupDuplicates.DuplicateGroups | scripts/cleanupDuplicates.ts:28-30 | the groups of more than one resource, largest first (`DuplicateGroupsOrder`) |
| CleanupDuplicates.Doomed | scripts/cleanupDuplicates.ts:36-40 | every member of a duplicate group but its first, in processing order (`DoomedMembers`) |
| CleanupDuplicates.Collapse | scripts/cleanupDuplicates.ts:45-56 | both tables after the job: the doomed resources and the media naming them are gone; what survives is `CollapseKeepsFirstOfEachUrl` and `CollapseCascade` |
| CleanupDuplicates.DeleteDuplicate | scripts/cleanupDuplicates.ts:47-54 | deletes the resource's media, then the resource, and nothing else |
| CleanupDuplicates.DeleteGroupMembers | scripts/cleanupDuplicates.ts:45-56 | deletes each listed resource and its media, and adds one to the count per resource |
| CleanupDuplicates.CleanupDuplicates | scripts/cleanupDuplicates.ts:8-89 | the tables end as `Collapse` gives; the report holds the number of duplicate urls, the deleted count and the recount |
| CleanupDuplicates.DoomedMembers | scripts/cleanupDuplicates.ts:28-40 | the deleted resources are those of the unsorted grouping minus each group's first |
| CleanupDuplicates.DoomedFromTable | scripts/cleanupDuplicates.ts:40 | every deleted resource is a row of the table |
| CleanupDuplicates.DeletedIffDoomed | scripts/cleanupDuplicates.ts:45-54 | a resource disappears exactly when it is marked for deletion |
| CleanupDuplicates.CollapseKeepsFirstOfEachUrl | scripts/cleanupDuplicates.ts:17-56 | a resource survives exactly when it has no url, or it is the first resource in select order with its trimmed url |
| CleanupDuplicates.CollapseLeavesUniqueUrls | scripts/cleanupDuplicates.ts:63-81 | afterwards no two resources with a url share a trimmed url, and the recheck finds no duplicate |
| CleanupDuplicates.CollapseFixedPoint | scripts/cleanupDuplicates.ts:28-56 | with no shared trimmed url nothing is deleted |
| CleanupDuplicates.CollapseIdempotent | scripts/cleanupDuplicates.ts:36-56 | a second run leaves the tables as the first left them |
| CleanupDuplicates.DeletedCount | scripts/cleanupDuplicates.ts:34-55 | `totalDeleted` is the sum over duplicate groups of one less than their size |
| CleanupDuplicates.CollapseCascade | scripts/cleanupDuplicates.ts:45-54 | a media row survives exactly when every resource it names survives; media of kept resources and unlinked media stay |
| CleanupDuplicates.DuplicateGroupsOrder | scripts/cleanupDuplicates.ts:28-30 | groups are processed largest first, and each has more than one member |
| CleanupMediaDuplicates.FindDuplicateUrls | scripts/cleanupMediaDuplicates.ts:50-58 | the loop keeps exactly the groups of more than one row, and `totalDuplicates` is their surplus |
| CleanupMediaDuplicates.PushIds | scripts/cleanupMediaDuplicates.ts:106-107 | appends the ids of the given rows, in order |
| CleanupMediaDuplicates.CollectItemsToDelete | scripts/cleanupMediaDuplicates.ts:96-114 | `itemsToDelete` is, group by group, the ids of each group sorted by `createdAt` minus its first |
| CleanupMediaDuplicates.UrlGroups | scripts/cleanupMediaDuplicates.ts:39-47 | the valid media grouped by raw url in first-seen order |
| CleanupMediaDuplicates.DuplicateUrls | scripts/cleanupMediaDuplicates.ts:50-58 | the groups of more than one row, in the same order |
| CleanupMediaDuplicates.Doomed | scripts/cleanupMediaDuplicates.ts:98-105 | each duplicate group sorted by `createdAt`, minus its first row |
| CleanupMediaDuplicates.ItemsToDelete | scripts/cleanupMediaDuplicates.ts:96-111 | the ids of the doomed rows, in order (`DeletedCount` gives their number) |
| CleanupMediaDuplicates.Dedup | scripts/cleanupMediaDuplicates.ts:123-136 | both tables after the job: only the listed media rows are deleted; what survives is `DedupKeepsOldestOfEachUrl` |
| CleanupMediaDuplicates.CleanupMediaDuplicates | scripts/cleanupMediaDuplicates.ts:6-172 | the tables end as `Dedup` gives. The job returns early exactly when no url has two valid rows; otherwise it reports the counts, the delete list, its batches and the recount |
| CleanupMediaDuplicates.DoomedOfAllGroups | scripts/cleanupMediaDuplicates.ts:98-114 | the delete list is what sorting every url group and dropping its first row gives |
| CleanupMediaDuplicates.DeletedIffDoomed | scripts/cleanupMediaDuplicates.ts:128-131 | a media row disappears exactly when it is marked for deletion |
| CleanupMediaDuplicates.DedupKeepsOldestOfEachUrl | scripts/cleanupMediaDuplicates.ts:98-107 | a row survives exactly when it is an orphan, or it is first, by `createdAt`, among the valid rows with its exact url |
| CleanupMediaDuplicates.DedupLeavesUniqueUrls | scripts/cleanupMediaDuplicates.ts:140-157 | afterwards no two valid rows share a url |
| CleanupMediaDuplicates.DedupFixedPoint | scripts/cleanupMediaDuplicates.ts:63-69 | the job returns early exactly when no two valid rows share a url, and then changes nothing |
| CleanupMediaDuplicates.DedupIdempotent | scripts/cleanupMediaDuplicates.ts:63-69 | a second run leaves the tables as the first left them |
| CleanupMediaDuplicates.DeletedCount | scripts/cleanupMediaDuplicates.ts:53-114 | `itemsToDelete` has exactly `totalDuplicates` ids |
| CleanupMediaDuplicates.OrphansUntouched | scripts/cleanupMediaDuplicates.ts:31-34 | deleting ids of no orphan leaves the orphans as they were |
| CleanupMediaDuplicates.DedupKeepsOrphans | scripts/cleanupMediaDuplicates.ts:162-166 | the recount finds exactly the orphans found before the job |
| CleanupMediaDuplicates.OrphanSharingUrlStillReported | scripts/cleanupMediaDuplicates.ts:143-159 | an orphan sharing its url with a valid row makes the whole-table recheck report a duplicate |
| CleanupOrphanedMedia.Unlinked | scripts/cleanupOrphanedMedia.ts:121 | keeps exactly the rows with an absent or empty `resourceId` |
| CleanupOrphanedMedia.OrphanKey | scripts/cleanupOrphanedMedia.ts:49 | the grouping key `resourceId \|\| 'null'` |
| CleanupOrphanedMedia.OrphanGroups | scripts/cleanupOrphanedMedia.ts:47-54 | the orphans grouped by the resource id they name, in first-seen order (`OrphanGroupsCover`) |
| CleanupOrphanedMedia.TopOrphanGroups | scripts/cleanupOrphanedMedia.ts:60-62 | the groups sorted largest first, cut to five (`TopOrphanGroupsAreLargest`) |
| CleanupOrphanedMedia.Purge | scripts/cleanupOrphanedMedia.ts:74-100 | both tables after the job: the orphans' ids are deleted (`PurgeKeepsValidMedia`) |
| CleanupOrphanedMedia.CleanupOrphanedMedia | scripts/cleanupOrphanedMedia.ts:6-128 | the tables end as `Purge` gives. The job returns early exactly when there is no orphan; otherwise it reports the counts, the top groups, the delete list, its batches and the recounts |
| CleanupOrphanedMedia.DeleteOrphanIds | scripts/cleanupOrphanedMedia.ts:92-94 | deleting by a list that names exactly the orphans leaves exactly the valid rows |
| CleanupOrphanedMedia.PurgeKeepsValidMedia | scripts/cleanupOrphanedMedia.ts:74-100 | what remains is exactly the non-orphan media, in table order: one row fewer per orphan |
| CleanupOrphanedMedia.PurgeLeavesNoOrphans | scripts/cleanupOrphanedMedia.ts:104-114 | the recount finds no orphan |
| CleanupOrphanedMedia.PurgeIdempotent | scripts/cleanupOrphanedMedia.ts:27-30 | a second run changes nothing |
| CleanupOrphanedMedia.OrphanGroupsCover | scripts/cleanupOrphanedMedia.ts:47-54 | group sizes sum to the orphan count; each key names no resource; each grouped row is a table row whose `resourceId` is its key |
| CleanupOrphanedMedia.TopOrphanGroupsAreLargest | scripts/cleanupOrphanedMedia.ts:60-62 | at most five groups, largest first, all drawn from the grouping; no group left out is larger than a listed one |
| MediaLookup.StripQuery | lib/actions/media.ts:8 | the result is a prefix of the url and holds no `?` |
| MediaLookup.StripQueryStopsAtFirstMark | lib/actions/media.ts:8 | the result stops at the first `?`, or runs to the end |
| MediaLookup.StripQueryUnchanged | lib/actions/media.ts:8 | a url is unchanged exactly when it holds no `?` |
| MediaLookup.StripQueryIdempotent | lib/actions/media.ts:8 | stripping twice equals stripping once |
| MediaLookup.StripQueryDropsQuery | lib/actions/media.ts:8 | `base?query` strips to `base`, whatever the query holds |
| MediaLookup.StripAll | lib/actions/media.ts:8 | strips every input url, in order |
| MediaLookup.MediaWithUrlIn | lib/actions/media.ts:9 | the select returns exactly the rows whose url is listed, each as often as it is stored |
| MediaLookup.Describe | lib/actions/media.ts:10 | one entry per row, holding only the row's url and description |
| MediaLookup.GetMediasDescriptionFromUrl | lib/actions/media.ts:5-11 | every entry's url is a stripped input url without `?`, and there is one entry per matching row |
| MediaLookup.LookupFindsExactlyMatches | lib/actions/media.ts:8-10 | an entry is returned exactly when some stored row with a stripped input url has that url and description |
| MediaLookup.QueryStringIgnored | lib/actions/media.ts:8-9 | a url with a query string finds what the url without it finds |
| MediaLookup.StoredQueryNeverFound | lib/actions/media.ts:8-9 | a stored url holding `?` is never returned |
| MediaLookup.UnmatchedUrlAddsNothing | lib/actions/media.ts:9 | an input url matching no row adds no entry and raises no error |
| MediaLookup.EntryCountIsMatchingRows | lib/actions/media.ts:9-10 | each entry occurs exactly as often as there are rows, distinct or not, whose url is a stripped input url and whose url and description are the entry's |

## Left out

- Console output, the examples and counts that are only printed, and the `catch` blocks that log and rethrow: output is not modelled. The reports return the numbers the scripts print.
- The random 700-1499 ms wait after creating a resource (`scripts/scrap.ts:141-142`): timing is not modelled.
- Reading `urls.md` from disk: the file contents are a parameter of `Scrap`.
- The image regex (`scripts/scrap.ts:52`): it is an extractor parameter. The model does not assume the host, `.png` or whitespace shape of its results.
- The fallback full scan (`scripts/scrap.ts:62-68`): it selects the same rows as the filtered query, so the model keeps only the filter.
- The where-versus-snapshot guard (`scripts/scrap.ts:36-44`): `Scrap.SnapshotGuardUnreachable` proves it can never fire.
- `createResource` (its source is not part of this model): a parameter saying whether it succeeds. On success it stores one row with a fresh id. Anything else it writes is not modelled.
- The prompt text and base64 encoding in `describeImageFromUrl`: the model request carries the type, the url, the title and the description instead of the bytes.
- `Date` parsing of `createdAt`: timestamps are integers.
- Database failures in the middle of a job: the model assumes each statement succeeds.
- Concurrency between scripts: the scripts run one at a time.
- Scrap.Scrap: the `break` after a failed `createResource` returns at once, because only a log line follows the loop.
- CleanupMediaDuplicates.CollectItemsToDelete: the source sorts each group's array in place, and that array is shared by both maps. The model sorts copies, because the sorted order is used only here.
- Schema.FreshId: a new row's id is chosen unused by every resource id, media id and media `resourceId`, dangling ones included. A database id generator promises only the first two. The "no media" part of `Scrap.NewUrlCreatesOneResource` rests on the third.
- Select order: every select without `order by` is taken to return rows in table order, and the same order in every statement. The source relies on such an order at `scripts/scrap.ts:47` (`resource[0]`) and `scripts/cleanupDuplicates.ts:40` (`[keepResource, ...]`); SQL does not promise it.
- A `scrapeUrl` call that throws (`scripts/scrap.ts:112`) is not modelled: the scrape parameter always returns a response. Such a throw would also abort the run, with the thrown message instead of `Failed to crawl: …`.
