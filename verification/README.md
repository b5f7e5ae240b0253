# Verified model of the reading tracker's backend

A Dafny model of the parts of the backend that hold state or compute something: reading statistics, book merge and
ratings, backup and restore, collection ordering, contributor slugs, search deduplication, chat paging, friendships
and chat, catalog import, version history, and the purge of deleted accounts. `dafny verify dfyconfig.toml` checks
the whole project.

## How the backend is modelled

The database (`Schema.dfy`) is a record of tables. A table is a sequence of rows in scan order, a row its primary key
and its columns; the declared foreign keys, unique keys (a NULL exempts a row) and check constraints are predicates,
`Consistent` their conjunction. `Sql.dfy` has the fragment of SQL the repositories use, with three-valued logic:
a `WHERE` clause keeps a row only when its condition is true, not when it is UNKNOWN. Keys (UUIDs in the source) are
numbers given out in increasing order, times are microseconds.

A service that changes rows is a class whose fields are the tables it writes; its methods take the source's steps in
the source's order, with commit and rollback, and are proved against functions of the old state. Queries, and
services that only read, are functions. Laws are lemmas about the functions. Runs of several steps are serial.

| file | what it models |
|---|---|
| `ReadingStreak.dfy`, `ReadingTimeline.dfy` | the window-function pipeline behind streaks; the gap-filled timeline and the totals |
| `BookMerge.dfy`, `BookMergeLaws.dfy`, `BookRatings.dfy` | merging a duplicate book, statement by statement; the rating aggregates |
| `Backup.dfy`, `Backup*Laws.dfy`, `BackupService.dfy` | export, merge-restore, replace-restore |
| `CollectionOrder.dfy` | positions in rows that stand for a list |
| `Slugs.dfy` | `slugify` and the loop for a free slug |
| `SearchDedup.dfy` | deduplication of search hits |
| `ChatPaging.dfy` | the cursor walk through a thread |
| `Friendships.dfy`, `FriendshipRuns.dfy` | requests, friendships, blocks; what holds over every run |
| `Chat.dfy`, `ChatMessaging.dfy` | threads and messages between friends, and runs of both services |
| `CatalogImport.dfy`, `CatalogImportLaws.dfy` | importing a book from an external source |
| `VersionHistory.dfy` | the version listeners and the audit blocks |
| `AccountPurge.dfy`, `AccountPurgeLaws.dfy` | purging one deleted account |
| `Runs.dfy`, `AccountPurgeRuns.dfy` | runs of steps that end at the first failure; purging many accounts |

## Where the code does less than one expects

Each of these is proved: the exact condition under which the expected property holds, and a state at which it fails.

- The current streak is 0 as soon as a session has ended tomorrow, even when today is a reading day
  (`CurrentStreak`, `CurrentStreakIsRunIff`; `TomorrowEndsStreak`): the end time comes from the client.
- Replace-restore does not bring back collection items, which an export does not hold, nor collections beyond the
  first 10000 (`RestoredCollectionsAreEmpty`, `ItemsSurviveIff`, `CollectionsComeBackIff`; `ItemIsLost`,
  `CollectionsAreLost`), and it is refused as long as a chat message attaches one of the user's collections
  (`ExportThenReplace`; `SentCollectionIsRefused`).
- Merge-restore stops at an active reading session whose release already has another active one
  (`MergeSucceedsIff`; `SecondActiveSessionIsRefused`); what it inserted before stays.
- Patching an item to a taken position makes a tie (`PatchKeepsPositionsIff`; `PatchTies`). Pages of a tied list can
  repeat an item and miss another, since each request sorts anew (`PagesEnumerate`; `TiedPagesRepeat`).
- The cursor walk through a thread skips messages when a page ends between two messages of the same instant
  (`WalkCompleteIff`; `WalkMissesTwin`).
- A user who is blocked can block back, which overwrites the block, and then unblock (`BlockedUserCanLiftIt`);
  a block lasts exactly until an unblock by whichever of the two blocked last (`BlockLastsIff`).
- A message whose attachments do not exist is refused after its thread was created and committed
  (`RefusedUnchangedIff`; `RefusedMessageLeavesThread`).
- A new book listed with two forms of one ISBN, an ISBN-10 and its ISBN-13, cannot be imported
  (`ImportSucceedsIff`; `TwoFormsOfOneCode`): both normalise to one code, and codes are unique.
- Importing a book without a valid ISBN again adds a release each time (`ImportIdempotentIff`;
  `BookWithoutIsbnTwice`).
- A write made in one audit block and flushed in another is attributed to the block of the flush; the documentation
  of `audit_as` promises the mutations within the block. Every version is attributed to the block of its write exactly
  when no flush finds a write of another block pending (`FaithfulIff`, with rollbacks `AttributedIff`;
  `NestedFlushMisattributes`).
- The purge of an account commits before the user is deleted. With a chat or import row left, the account loses its
  data but keeps its user row (`HalfPurgedIff`; `ThreadLeavesHalfPurged`). A version that records one of the user's
  contributions, or a chat message that attaches one of their collections, refuses the purge as a whole (`PurgedIff`;
  `RecordedContributionRefuses`, `SentCollectionRefuses`). Of these the documentation of `purge_deleted_users` names only the sender of chat
  messages, as still to be done.
- A comment in `purge_deleted_users` (lines 46-47) promises that one failure does not abort the run. It does: the
  handler rolls back, which expires every loaded row, and then reads the failed user's key for its log line, which
  raises. A run over distinct users completes exactly when each could be purged at its start (`RunCompletesIff`), in
  whatever order (`OrderDoesNotMatter`). Otherwise it ends at the first that could not (`RunEndsAt`). So it removes all
  that could be purged exactly when none of them is listed behind one that could not (`PurgesThePurgeableIff`), and
  which users it leaves depends on the order exactly when some can be purged and some cannot (`RunOrderMattersIff`;
  `FailureStopsRest`). The next run in that order changes nothing (`NextRunChangesNothing`).
- Versions go on naming a purged user who made a change (`PurgedLeavesNoReference`; `VersionNamesPurgedUser`), as the
  model of that table intends.
- Two merges in different orders keep different reviews of an author exactly when the author reviewed a and b and not
  c (`SameSurvivorIff`, `MergeOrderMattersIff`; `OrderMatters`); everything else is the same.

## Model

| member | source | states |
|---|---|---|
| `ReadingStreak.GroupsAreBlocks` | app/repositories/reading_stats_repository.py:71-105 | the groups of the LAG / running SUM / GROUP BY pipeline are exactly the maximal blocks of consecutive reading days, each with its length and last day |
| `ReadingStreak.ReadingDaysAre` | app/repositories/reading_stats_repository.py:71-80 | a reading day is a day, from midnight to midnight UTC, within which one of the user's sessions ended |
| `ReadingStreak.LongestStreak` | app/repositories/reading_stats_repository.py:66-125 | the longest streak is the largest number of consecutive days that are all reading days |
| `ReadingStreak.CurrentStreak` | app/repositories/reading_stats_repository.py:66-125 | the current streak is the run of reading days that ends today, but 0 when tomorrow is one as well |
| `ReadingStreak.CurrentStreakIsRunIff` | app/repositories/reading_stats_repository.py:66-125 | it is that run exactly when today is not a reading day or tomorrow is not |
| `ReadingStreak.TomorrowEndsStreak` | app/repositories/reading_stats_repository.py:102-106 | with sessions ended today and tomorrow it is 0 and not that run |
| `ReadingStreak.LoggingJoinsRuns` | app/repositories/reading_stats_repository.py:66-125 | a session on a new day joins the runs before and after it through that day; the longest streak becomes the joined run or stays |
| `ReadingTimeline.RoundingError` | app/repositories/reading_stats_repository.py:127-174 | rounding to minutes is off by at most half a minute, ties away from zero |
| `ReadingTimeline.TruncationError` | app/repositories/reading_stats_repository.py:16-64 | truncating to minutes is off by less than a minute, toward zero |
| `ReadingTimeline.OneEntryPerDay` | app/repositories/reading_stats_repository.py:127-174 | a timeline has exactly one entry for each day of its range, with that day, in ascending order |
| `ReadingTimeline.TimelineConcat` | app/repositories/reading_stats_repository.py:127-174 | timelines of adjacent ranges concatenate |
| `ReadingTimeline.TimelineSums` | app/repositories/reading_stats_repository.py:127-174 | its sessions are those that ended in the range, and its pages the sum of their pages column, NULLs skipped |
| `ReadingTimeline.TimelineMinutes` | app/repositories/reading_stats_repository.py:127-174 | its minutes are the end times of those sessions less their start times, off by at most half a minute per day with a session |
| `ReadingTimeline.OneSessionTimeline` | app/repositories/reading_stats_repository.py:127-174 | the entry of the day of a user's only session: one session, its pages, the time from its start to its end to half a minute |
| `ReadingTimeline.TimelineAgreesWithStats` | app/repositories/reading_stats_repository.py:16-64 | over a range that covers all sessions the sums are the all-time totals, and the minutes differ from the truncated total by less than D/2 + 1, D the number of days with a session |
| `ReadingTimeline.CountedAre` | app/repositories/reading_stats_repository.py:16-28 | a period counts the user's ended sessions of the last 7, 30 or 365 days, or all of them |
| `ReadingTimeline.StatsAddUp` | app/repositories/reading_stats_repository.py:29-64 | the minutes are the counted end times less the start times, to less than a minute toward zero; pages are the sum of their column |
| `ReadingTimeline.StatsAfterLogging` | app/repositories/reading_stats_repository.py:16-64 | one more session adds one to the count if it is in the period, and one to the books if no counted session was of its book; else nothing changes |
| `ReadingTimeline.PeriodsNest` | app/repositories/reading_stats_repository.py:16-64 | a shorter period never counts more sessions or books, nor, when no session has a negative time or page count, more minutes or pages |
| `BookMerge.BookSession.Merge` | app/repositories/book_repository.py:117-162 | merges and commits, or leaves the committed state: not found, or the source is still referred to |
| `BookMerge.BookSession.MergeBooks` | app/services/book_service.py:96-102 | refuses a merge with itself; otherwise succeeds exactly when both books exist and no chat message attaches the source, and changes nothing when it fails |
| `BookMerge.DuplicateMeans` | app/repositories/book_repository.py:133-142 | the DELETE with its IN subquery drops exactly the source's reviews whose author is not NULL and has reviewed the target |
| `BookMerge.OnlyChatRefuses` | app/models/chat.py:31-33 | after the five statements only a chat message can still refer to the source |
| `BookMerge.DropBookIff` | app/repositories/book_repository.py:160-162 | the deletion of a book is refused exactly when it would leave a foreign key dangling |
| `BookMerge.MergeRefusedIff` | app/models/chat.py:31-33 | a merge leaves every constraint exactly when no chat message attaches the source |
| `BookMerge.ReleasesStayConsistent` | app/repositories/book_repository.py:127-131 | every constraint holds while the releases move, whichever rows have moved so far |
| `BookMerge.DropLeavesNoDuplicates` | app/repositories/book_repository.py:133-142 | after the DELETE no author has a review of both books |
| `BookMerge.DropStaysConsistent` | app/repositories/book_repository.py:135-142 | the DELETE keeps every constraint |
| `BookMerge.ReviewsStayConsistent` | app/models/review.py:10-22 | the review keys stay unique, NULL authors exempt, while the reviews move, whichever rows have moved so far |
| `BookMerge.StatusesStayConsistent` | app/repositories/book_repository.py:149-153 | the same for the statuses |
| `BookMerge.ItemsStayConsistent` | app/repositories/book_repository.py:154-158 | the same for the collection items |
| `BookMerge.DropBookStaysConsistent` | app/repositories/book_repository.py:160-162 | deleting an unreferenced book with its links keeps every constraint |
| `BookMerge.MergeKeepsConstraints` | app/repositories/book_repository.py:117-162 | every constraint holds after each of the five statements and after the deletion |
| `BookMergeLaws.MergedReviewsAre` | app/repositories/book_repository.py:133-147 | the reviews after a merge are the others, moved from source to target, and no more |
| `BookMergeLaws.MergeRewritesOnlyBook` | app/repositories/book_repository.py:127-162 | row by row a merge replaces the book and nothing else, removes the source and its links, and leaves all other tables |
| `BookMergeLaws.MergeConserves` | app/repositories/book_repository.py:127-162 | releases, statuses and items are conserved: the target gets both books', other books keep theirs |
| `BookMergeLaws.CountReviews` | app/models/review.py:20-21 | a book has one review per known author, plus the anonymous ones |
| `BookMergeLaws.MergeOrderDoesNotMatter` | app/repositories/book_repository.py:117-162 | merging a into b or into c before b into c leaves the same releases, statuses, items, books, links, authors of reviews and number of reviews |
| `BookMergeLaws.SurvivorDependsOnOrder` | app/repositories/book_repository.py:133-147 | of an author who reviewed a and b and not c, one order keeps the review of b and the other that of a |
| `BookMergeLaws.SameSurvivorIff` | app/repositories/book_repository.py:133-147 | both orders keep the same reviews of an author exactly when the author did not review a and b and not c |
| `BookMergeLaws.SameReviewsIff` | app/repositories/book_repository.py:133-147 | both orders leave the same review rows exactly when there is no such author |
| `BookMergeLaws.MergeOrderMattersIff` | app/repositories/book_repository.py:117-162 | so exactly then the statements of both merges, run in either order, leave the same tables, and otherwise all but the reviews is the same |
| `BookMergeLaws.OrderMatters` | app/repositories/book_repository.py:133-147 | a database where the two orders leave different reviews |
| `BookRatings.CountsMeans` | app/repositories/review_repository.py:117-135 | the WHERE clause counts the public reviews of the book and of its releases |
| `BookRatings.CountedAre` | app/repositories/review_repository.py:117-135 | a book's reviews are the public ones of the book or of one of its releases |
| `BookRatings.AggregateIsMean` | app/repositories/review_repository.py:130-135 | the average is the sum of the ratings over their number, NULL when there is none; the count is that of the reviews |
| `BookRatings.AverageInRange` | app/repositories/review_repository.py:117-135 | a book's average is between 1 and 5 |
| `BookRatings.CountedForOneBook` | app/repositories/review_repository.py:117-135 | a public review counts for exactly one book, and once |
| `BookRatings.RatingsAddUp` | app/repositories/review_repository.py:117-135 | the target's aggregate after a merge is that of both books' tallies added, less the dropped public duplicates |
| `BookRatings.OtherBooksKeepRatings` | app/repositories/review_repository.py:117-135 | every other book keeps its aggregate across a merge |
| `BookRatings.CountedForReleaseAre` | app/repositories/review_repository.py:137-147 | a release's reviews are its public ones |
| `BookRatings.ReleasesKeepRatings` | app/repositories/review_repository.py:137-147 | every release keeps its aggregate across a merge |
| `BackupMergeLaws.MergeFindsAll` | app/services/backup_restore_service.py:84-182 | a merge-restore that is not refused leaves every exported key present |
| `BackupMergeLaws.FoundIff` | app/repositories/backup_restore_repository.py:27-59 | a lookup succeeds exactly when a row of the user has the key columns of the entry; a review with a book is looked up by its book alone |
| `BackupMergeLaws.MergeLeavesOwn` | app/services/backup_restore_service.py:84-182 | a merge-restore that is not refused leaves the user with a row of their own for each exported entry |
| `BackupMergeLaws.AdditionsIgnoreOthers` | app/repositories/backup_restore_repository.py:27-59 | what it adds does not depend on other users' rows |
| `BackupMergeLaws.MergeResumes` | app/services/backup_restore_service.py:84-182 | cut off after any prefix and repeated in full, it ends in the state of an uninterrupted run |
| `BackupMergeLaws.SecondMergeCreatesNothing` | app/services/backup_restore_service.py:84-182 | a second full run changes nothing |
| `BackupMergeLaws.LeftBiasedUnion` | app/repositories/backup_restore_repository.py:27-59 | the additions are the first exported entry of each absent natural key, no two with one key, and with the database they answer every exported entry's lookup |
| `BackupMergeLaws.MergeInsertsAdditions` | app/services/backup_restore_service.py:84-182 | for any export file the run inserts exactly the additions, and succeeds exactly when they can be inserted |
| `BackupInsertLaws.InsertAllIff` | app/services/backup_restore_service.py:184-254 | a batch goes in exactly when every row fits and clashes with nothing, and no two of its rows clash |
| `BackupInsertLaws.InsertIff` | app/services/backup_restore_service.py:184-254 | a row is refused exactly when it would violate a constraint |
| `BackupInsertLaws.FitsMeans` | app/services/backup_restore_service.py:184-254 | what a row of each kind must satisfy, column by column |
| `BackupInsertLaws.MergeSucceedsIff` | app/services/backup_restore_service.py:84-182 | for any export file, a merge-restore is refused exactly when an addition fails its own constraints, column widths among them, or is a second active session of its release |
| `BackupInsertLaws.SecondActiveSessionIsRefused` | app/services/backup_restore_service.py:153-175 | a state where an exported session that fits is refused for that reason |
| `BackupInsertLaws.MergeAppends` | app/services/backup_restore_service.py:84-182 | it leaves every existing row as it is, even when refused halfway |
| `BackupInsertLaws.InsertAllColumns` | app/services/backup_restore_service.py:184-254 | each table gains exactly the rows of its entries, in order |
| `BackupInsertLaws.MergeKeepsConstraints` | app/services/backup_restore_service.py:84-182 | a merge-restore keeps every constraint, refused or not |
| `BackupInsertLaws.InsertAllKeepsConstraints` | app/services/backup_restore_service.py:184-254 | so does a batch of insertions |
| `BackupReplaceLaws.ExportThenReplace` | app/services/user_export_service.py:37-78 | export then replace-restore succeeds exactly when no chat message attaches one of the user's collections, gives back statuses, reviews, sessions and exported collections, and leaves other users' rows and every other table |
| `BackupReplaceLaws.SentCollectionIsRefused` | app/repositories/backup_restore_repository.py:64-78 | a user who sent a friend a collection cannot replace-restore anything |
| `BackupReplaceLaws.PurgedIff` | app/repositories/backup_restore_repository.py:64-78 | the purge of a replace-restore is refused exactly when it would leave a foreign key dangling |
| `BackupReplaceLaws.ReplaceKeepsConstraints` | app/services/backup_restore_service.py:184-254 | a replace-restore keeps every constraint |
| `BackupReplaceLaws.CollectionsComeBackIff` | app/services/user_export_service.py:47-49 | all collections come back exactly when there were at most 10000 |
| `BackupReplaceLaws.CollectionsAreLost` | app/services/user_export_service.py:47-49 | a user with more collections loses some |
| `BackupReplaceLaws.RestoredCollectionsAreEmpty` | app/services/backup_restore_service.py:184-254 | restored collections hold no items |
| `BackupReplaceLaws.ItemsSurviveIff` | app/repositories/backup_restore_repository.py:64-78 | the items survive the round trip exactly when the user's collections had none |
| `BackupReplaceLaws.ItemIsLost` | app/repositories/backup_restore_repository.py:64-78 | a collection with one item loses it |
| `BackupReplaceLaws.ReplaceRestores` | app/repositories/backup_restore_repository.py:64-84 | after any replacement the user's rows are the entries' rows; other users' rows, the items of their collections and every other table are untouched |
| `BackupService.RestoreService.MergeEntry` | app/services/backup_restore_service.py:84-182 | one entry: found and skipped, created and committed, or refused and rolled back |
| `BackupService.RestoreService.MergeEntries` | app/services/backup_restore_service.py:84-182 | created + skipped is the number of entries, created the number of new rows of their table, and no other table grows |
| `BackupService.RestoreService.RestoreMerge` | app/services/backup_restore_service.py:84-182 | the four loops are one merge of all entries; created + skipped is the number of entries of each kind, created the growth of its table |
| `BackupService.RestoreService.RestoreReplace` | app/services/backup_restore_service.py:184-254 | purge and insertions are committed together, or the state is unchanged |
| `BackupService.RestoreService.Restore` | app/services/backup_restore_service.py:47-82 | the mode, the switch and the confirmation decide; a refused replacement changes nothing |
| `CollectionOrder.ListingLists` | app/repositories/collection_repository.py:74-89 | the listing has exactly the collection's rows in ascending position |
| `CollectionOrder.ListingUnique` | app/repositories/collection_repository.py:74-89 | with distinct positions the query has one answer, whatever the scan order |
| `CollectionOrder.NextPositionIs` | app/repositories/collection_repository.py:99-106 | the next position is one above the collection's greatest, and 0 when it has no item |
| `CollectionOrder.AddAppends` | app/repositories/collection_repository.py:99-112 | adding appends to its collection's list and leaves every other list |
| `CollectionOrder.RemoveDeletes` | app/repositories/collection_repository.py:129-135 | removing deletes from its list and leaves every other list |
| `CollectionOrder.ReorderBecomes` | app/repositories/collection_repository.py:137-144 | an accepted reorder makes the list the request, at positions 0 to n-1 |
| `CollectionOrder.ReorderLeavesOthers` | app/repositories/collection_repository.py:137-144 | and leaves every other collection's list |
| `CollectionOrder.PatchKeepsPositionsIff` | app/services/collection_service.py:122-133 | a patched position keeps positions distinct exactly when no other item of the collection has it |
| `CollectionOrder.PatchTies` | app/services/collection_service.py:122-133 | two items, one patched to the other's position |
| `CollectionOrder.PagesEnumerate` | app/repositories/collection_repository.py:74-89 | with distinct positions, pages of a positive size concatenate to the whole list, though each request sorts anew |
| `CollectionOrder.TiedPagesRepeat` | app/repositories/collection_repository.py:74-89 | two items with one position, read one by one: the first can come twice and the second never |
| `CollectionOrder.StepRefinesList` | app/services/collection_service.py:103-146 | each operation on positions is the operation on the list, and keeps positions distinct |
| `CollectionOrder.RunRefinesList` | app/services/collection_service.py:103-146 | so over every run of add, remove and reorder |
| `CollectionOrder.CollectionService.AddItem` | app/services/collection_service.py:103-114 | the new row, its list, all other lists, and each refusal with nothing changed |
| `CollectionOrder.CollectionService.RemoveItem` | app/services/collection_service.py:116-120 | the same for removal |
| `CollectionOrder.CollectionService.ReorderItems` | app/services/collection_service.py:135-146 | accepted exactly for a duplicate-free list of the collection's items; then the list is the request |
| `Slugs.SlugifyJoinsWords` | app/repositories/contributor_repository.py:22-24 | a slug is the alphanumeric words of the lower-cased name joined by single hyphens, or "contributor" |
| `Slugs.SlugifyIsSlug` | app/repositories/contributor_repository.py:22-24 | it is always one or more words joined by single hyphens |
| `Slugs.SlugKeepsLetters` | app/repositories/contributor_repository.py:22-24 | a slug has the letters a-z and the digits of the lower-cased name, in order; without any it is "contributor" |
| `Slugs.SlugIsHyphenated` | app/repositories/contributor_repository.py:22-24 | a slug has letters, digits and single hyphens between them |
| `Slugs.SlugifyIdempotent` | app/repositories/contributor_repository.py:22-24 | slugifying a slug gives that slug |
| `Slugs.WordsOfJoin` | app/repositories/contributor_repository.py:22-24 | splitting undoes joining |
| `Slugs.ParseDecimal` | app/repositories/contributor_repository.py:171-177 | decimal printing can be read back, so different suffixes print differently |
| `Slugs.DecimalDigits` | app/repositories/contributor_repository.py:171-177 | a number is printed in digits, without leading zeros |
| `Slugs.CandidatesDiffer` | app/repositories/contributor_repository.py:171-177 | base, base-2, base-3, ... are pairwise different |
| `Slugs.CandidateIsSlug` | app/repositories/contributor_repository.py:171-177 | a numbered slug is a slug |
| `Slugs.CandidateIsNumbered` | app/repositories/contributor_repository.py:171-177 | after the base come a hyphen and the number of the candidate |
| `Slugs.TriedAtMost` | app/repositories/contributor_repository.py:171-183 | no more candidates can be taken than there are slugs |
| `Slugs.UniqueSlug` | app/repositories/contributor_repository.py:171-183 | the loop terminates with the first free candidate, at most number \|S\| + 1 |
| `Slugs.NewContributorIs` | app/repositories/contributor_repository.py:124-144 | the row that is added has the name, the sort name and the first free slug, each of at most 255 characters, or is refused |
| `Slugs.ContributorRepository.Add` | app/repositories/contributor_repository.py:124-144 | adds one row with the first free slug, or nothing when a column is too long |
| `Slugs.SlugsStayDistinct` | app/repositories/contributor_repository.py:124-144 | slugs stay pairwise distinct over every run of add |
| `SearchDedup.DeduplicateHits` | app/services/external_search_service.py:88-124 | the loop over two seen-sets computes the greedy pass |
| `SearchDedup.DedupSubsequence` | app/services/external_search_service.py:88-124 | the result is an order-preserving subsequence |
| `SearchDedup.DedupCharacterised` | app/services/external_search_service.py:88-124 | no kept hit shares an ISBN with, or is similar to, an earlier kept one, and a hit is dropped exactly when an earlier kept one covers it |
| `SearchDedup.KeptIff` | app/services/external_search_service.py:88-124 | a hit is kept exactly when no hit kept before it shares an ISBN with it, or is similar to it in title and in authors |
| `SearchDedup.JoinAuthorsSnoc` | app/services/external_search_service.py:88-124 | authors are compared as one text, joined by a comma and a space |
| `SearchDedup.DedupPrefix` | app/services/external_search_service.py:88-124 | more hits never change what was kept |
| `SearchDedup.DedupIdempotent` | app/services/external_search_service.py:88-124 | deduplicating again, alone or before further hits, changes nothing |
| `ChatPaging.NewestFirstFacts` | app/repositories/chat_repository.py:61-74 | the listing has exactly the selected messages, newest first |
| `ChatPaging.NewestFirstOlder` | app/repositories/chat_repository.py:61-74 | selecting older messages before or after ordering is the same |
| `ChatPaging.PageIsNewest` | app/repositories/chat_repository.py:61-74 | a page has the newest messages of the thread before its cursor, newest first, each once, as many as the limit allows; an unknown cursor excludes none |
| `ChatPaging.WalkNext` | app/repositories/chat_repository.py:61-74 | each request of a walk is get_messages_before with the last identifier received, until a page is empty |
| `ChatPaging.WalkIsWalkFrom` | app/repositories/chat_repository.py:61-74 | the requests of a walk go through the listing page by page, past the messages of the cursor's instant |
| `ChatPaging.WalkFromCompleteIff` | app/repositories/chat_repository.py:61-74 | such a walk returns the rest of the listing exactly when no page ends inside a tie |
| `ChatPaging.WalkCompleteIff` | app/repositories/chat_repository.py:61-74 | the walk enumerates the thread exactly when no page ends between two messages of one instant |
| `ChatPaging.WalkMissesTwin` | app/repositories/chat_repository.py:61-74 | two messages of one instant, read one by one: the walk misses one |
| `ChatPaging.WalkCompleteWhenDistinct` | app/repositories/chat_repository.py:61-74 | with pairwise distinct times it does, each message exactly once |
| `ChatPaging.WalkIgnoresNewer` | app/repositories/chat_repository.py:61-74 | messages that are not older than those of the thread leave what follows a cursor as it was |
| `ChatPaging.LiveWalkIsWalk` | app/repositories/chat_repository.py:61-74 | so a walk during which messages arrive, any number between any two requests, returns what it would have without them |
| `Friendships.NextKeeps` | app/services/friendship_service.py:26-146 | every step keeps at most one row per unordered pair, no self row, and every constraint |
| `Friendships.WellFormedIsConsistent` | app/models/friendship.py:20-27 | so the table's own unique key and check constraint are never violated in a serial run |
| `Friendships.NextPair` | app/services/friendship_service.py:26-146 | a step changes one pair's row, as a function of that row, and leaves every other pair's |
| `Friendships.RequestBecomes` | app/services/friendship_service.py:38-76 | what a request makes of the pair's row: pending from nothing or a refusal, accepted from the other's request, and else as it was |
| `Friendships.AnswerBecomes` | app/services/friendship_service.py:26-36 | accepting and declining answer a pending request addressed to the user, and change nothing else |
| `Friendships.AnswerToNothing` | app/services/friendship_service.py:26-36 | an answer to an unknown request changes nothing |
| `Friendships.OthersBecome` | app/services/friendship_service.py:109-146 | unfriending erases an accepted row, unblocking one's own block, and blocking writes the block whatever was there |
| `Friendships.FriendshipService.SendRequest` | app/services/friendship_service.py:38-76 | the new table; when it succeeds and with which row, and which error otherwise, by the row it finds |
| `Friendships.FriendshipService.GetPendingAsAddressee` | app/services/friendship_service.py:26-36 | finds the request exactly when it is pending and the user its addressee |
| `Friendships.FriendshipService.AcceptRequest` | app/services/friendship_service.py:84-88 | the new table; it succeeds exactly for a pending request addressed to the user, with the accepted row, and else changes nothing |
| `Friendships.FriendshipService.DeclineRequest` | app/services/friendship_service.py:90-94 | the same with the declined row |
| `Friendships.FriendshipService.EndFriendship` | app/services/friendship_service.py:109-113 | the new table; it succeeds exactly between friends |
| `Friendships.FriendshipService.BlockUser` | app/services/friendship_service.py:115-136 | afterwards the pair's row is the user's block of the target; it fails exactly for the user themselves and for an unknown user |
| `Friendships.FriendshipService.UnblockUser` | app/services/friendship_service.py:138-146 | the new table; it succeeds exactly for the user's own block |
| `FriendshipRuns.BecomesPending` | app/services/friendship_service.py:38-76 | a row becomes pending only by its requester's request, from nothing or a refusal |
| `FriendshipRuns.BecomesAccepted` | app/services/friendship_service.py:64-88 | a row becomes accepted only from pending, by its addressee, who accepted it or asked in turn |
| `FriendshipRuns.BecomesDeclined` | app/services/friendship_service.py:90-94 | a row becomes declined only from pending, by its addressee |
| `FriendshipRuns.LeavesAccepted` | app/services/friendship_service.py:109-136 | a friendship ends exactly when one of the two ends it or blocks the other |
| `FriendshipRuns.LeavesBlocked` | app/services/friendship_service.py:115-146 | a block ends only by an unblock from the row's current requester; a block by either user rewrites it |
| `FriendshipRuns.EveryRowIsExplained` | app/services/friendship_service.py:26-94 | over every run, a pending row was asked for by its requester, and an accepted row has both consents since it last became pending |
| `FriendshipRuns.FriendshipsAreMutual` | app/services/friendship_service.py:26-94 | from an empty table no friendship arises without a request and an agreement |
| `FriendshipRuns.BlockLastsIff` | app/services/friendship_service.py:115-146 | a block lasts over a run exactly until an unblock by whichever of the two blocked last |
| `FriendshipRuns.OwnBlockLastsIff` | app/services/friendship_service.py:115-146 | if the other does not block back, exactly until the blocker unblocks |
| `FriendshipRuns.BlockedUserCanLiftIt` | app/services/friendship_service.py:132-146 | by blocking back and unblocking, the blocked user removes the block, from any state |
| `Chat.OpenedIsFound` | app/services/chat_service.py:35-48 | whoever opens it, a pair has one thread, and opening it again from either side changes nothing |
| `Chat.OpenedAdds` | app/services/chat_service.py:35-48 | opening adds one empty thread, its smaller user first, exactly when the two have none |
| `Chat.ChatsAreConsistent` | app/models/chat.py:13-16 | the invariant implies the chat tables' constraints |
| `Chat.ChatStepKeeps` | app/services/chat_service.py:24-93 | every step keeps one thread per pair with the smaller user first, and every message from one of its thread's two users |
| `Chat.PostedIsLast` | app/services/chat_service.py:59-73 | a posted message is the pair's last, with its fields, and the thread's time is set |
| `Chat.OnlyFriendsWrite` | app/services/chat_service.py:24-93 | what two users wrote to each other changes only by one message of one of them while they are friends |
| `Chat.RefusedChanges` | app/services/chat_service.py:50-93 | a refused step changes nothing, except that dangling attachments may leave an empty thread |
| `Chat.RefusedIff` | app/services/chat_service.py:24-93 | a step is refused exactly for its recipient, no friend or not in the thread, or for its attachments |
| `Chat.RefusedUnchangedIff` | app/services/chat_service.py:50-93 | a refused step leaves the tables as they are exactly when its recipient is no friend or the pair already has its thread |
| `Chat.RefusedMessageLeavesThread` | app/services/chat_service.py:50-73 | a first message with a book that does not exist is refused and leaves a thread |
| `Chat.SendRefusedFor` | app/services/chat_service.py:24-73 | a message is refused exactly to oneself, to a user with whom there is no accepted row, or with an attachment that does not exist, and opening for the first two |
| `Chat.SendDelivers` | app/services/chat_service.py:50-73 | any other message is the last of the two afterwards, with its columns, and their thread has its time |
| `Chat.SendToMeans` | app/services/chat_service.py:75-93 | writing to a thread is writing to its other user, for its two users, and is refused for others |
| `Chat.SendToNowhere` | app/services/chat_service.py:75-93 | writing to an unknown thread is refused |
| `Chat.SocialRunKeeps` | app/services/chat_service.py:24-93 | over every run of both services the invariants of both hold |
| `Chat.SilentUntilConsent` | app/services/chat_service.py:24-33 | two users without friendship or request, one having blocked the other for example, write nothing to each other until one asked and the other agreed anew |
| `ChatMessaging.ChatService.VerifyFriendship` | app/services/chat_service.py:24-33 | lets through exactly two different users whose row is accepted |
| `ChatMessaging.ChatService.GetOrCreateThread` | app/services/chat_service.py:35-48 | the new tables, the pair's thread, and each refusal |
| `ChatMessaging.ChatService.SendMessage` | app/services/chat_service.py:50-73 | the new tables, the message at the end of the pair's messages, and each refusal |
| `ChatMessaging.ChatService.SendMessageToThread` | app/services/chat_service.py:75-93 | the same for the other user of the thread |
| `ChatMessaging.ChatService.MarkMessagesAsRead` | app/repositories/chat_repository.py:86-107 | marks exactly the other user's unread messages of the thread, counts them, and leaves none |
| `CatalogImport.ResolvedCredits` | app/services/import_service.py:280-294 | each listed contributor gets one credit, in order, in its role, to a contributor of that name |
| `CatalogImport.ByNameIff` | app/repositories/contributor_repository.py:31-37 | a contributor is found exactly when one has the full name and the sort name |
| `CatalogImport.ResolvedAgain` | app/services/import_service.py:280-294 | resolved once, names resolve to the same contributors later, and nothing is added |
| `CatalogImport.ResolvesAllIff` | app/repositories/contributor_repository.py:124-144 | the contributors can be resolved exactly when each name to be added, its sort name and the slug it gets fit their columns |
| `CatalogImport.LinkAllFacts` | app/repositories/import_repository.py:100-130 | after linking, the owner's contributors are those it had and those credited; the constraints hold |
| `CatalogImport.LinksAreCredits` | app/repositories/import_repository.py:100-130 | a new link is one of the credits, with its role |
| `CatalogImport.InsertSucceedsIff` | app/repositories/import_repository.py:81-98 | absent codes can be inserted exactly when they fit and are pairwise distinct |
| `CatalogImport.InsertedCodes` | app/repositories/import_repository.py:81-98 | afterwards a code leads where it led, or to the new release if it is one of its codes |
| `CatalogImportLaws.ImportKeepsConstraints` | app/services/import_service.py:47-66 | an import keeps every constraint, each normalised code in one release, and changes no existing row or link |
| `CatalogImportLaws.CodesConcat` | app/services/import_service.py:296-306 | the valid codes of a list are those of its parts, one for each code that is valid |
| `CatalogImportLaws.ByIsbnMeans` | app/services/import_service.py:229-232 | a code leads to the book of the release that has it |
| `CatalogImportLaws.ByCodesIsFirst` | app/services/import_service.py:229-232 | the first code that leads to a book decides |
| `CatalogImportLaws.ByTitleIff` | app/repositories/import_repository.py:26-43 | a book is found by title exactly when one has the title and exactly the listed contributors, and at least one is listed |
| `CatalogImportLaws.ImportAdds` | app/services/import_service.py:47-66 | a known code adds contributors to its book and nothing else; otherwise there is one more release, of the book of that title and those contributors or of a new book with the detail's columns |
| `CatalogImportLaws.ReleaseIsAsDetailed` | app/services/import_service.py:248-272 | the created release has the detail's columns, one row per valid code, and the detail's contributors in their roles |
| `CatalogImportLaws.ImportSucceedsIff` | app/services/import_service.py:47-66 | an import succeeds exactly when the names to be added fit their columns with their slugs and, if no code is in the catalog, title, publisher, language and codes fit and the codes are pairwise distinct |
| `CatalogImportLaws.TwoFormsOfOneCode` | app/services/isbn.py:9-19 | a new book with two forms of one ISBN cannot be imported |
| `CatalogImportLaws.FoundAgain` | app/services/import_service.py:223-246 | after an import with a valid code, the codes lead to the imported book |
| `CatalogImportLaws.ImportIdempotentIff` | app/services/import_service.py:47-66 | a second import finds the same book and changes nothing exactly when the detail has a valid ISBN |
| `CatalogImportLaws.BookWithoutIsbnTwice` | app/services/import_service.py:47-66 | a book without ISBNs, imported twice, changes the catalog twice |
| `CatalogImportLaws.ImportService.NormalizeIsbns` | app/services/import_service.py:296-306 | the valid codes in order, the others skipped |
| `CatalogImportLaws.ImportService.ResolveContributors` | app/services/import_service.py:280-294 | the loop resolves all contributors, or fails when one cannot be inserted |
| `CatalogImportLaws.ImportService.ResolveBook` | app/services/import_service.py:223-246 | by ISBN, else by title and contributors, else a new book |
| `CatalogImportLaws.ImportService.CreateReleaseOf` | app/services/import_service.py:248-272 | the loops create the release, its codes and its links, or fail at a refused insert |
| `CatalogImportLaws.ImportService.ImportBook` | app/services/import_service.py:47-66 | the whole import, or the old catalog |
| `VersionHistory.VersionsAreGapless` | app/services/entity_version_listeners.py:29-50 | an entity's versions are numbered 1, 2, ... in the order of its flushes, each with its flush's snapshot and attribution |
| `VersionHistory.MaxIsCount` | app/services/entity_version_listeners.py:32-37 | the greatest version number is the number of the entity's flushed writes |
| `VersionHistory.FlushedWrites` | app/services/entity_version_listeners.py:53-70 | a write followed by a flush adds one version of its entity, with what it wrote and the block; every other pending entity gets one, of its last write, and no other any |
| `VersionHistory.LastWriteWins` | app/services/entity_version_listeners.py:53-70 | one flush after any number of writes records each entity written once, with its last write |
| `VersionHistory.PendingStaysDistinct` | app/services/entity_version_listeners.py:53-70 | over every program an entity has at most one unflushed write |
| `VersionHistory.CommitThenRollback` | app/core/db.py:19-26 | a commit flushes and keeps what was pending; a rollback undoes all that follows it, exceptions included |
| `VersionHistory.RaiseReachesHandler` | app/core/audit_context.py:19-39 | an exception skips what follows, leaves the blocks around it and ends at the handler |
| `VersionHistory.HistoryOnlyGrows` | app/models/entity_version.py:27-33 | committed versions are never changed or removed |
| `VersionHistory.VersionsAreImmutable` | app/models/entity_version.py:27-33 | the committed rows of the table stay a prefix |
| `VersionHistory.FlushedInBlock` | app/core/audit_context.py:19-39 | whatever is flushed in a block is attributed to it or to a block nested in it |
| `VersionHistory.SettledRunsAreFaithful` | app/core/audit_context.py:19-39 | if nothing is pending where blocks begin and end, every version is attributed to the innermost block of its write |
| `VersionHistory.FaithfulIff` | app/core/audit_context.py:19-39 | for blocks nested in any way, without rollbacks: every version is attributed to the innermost block of its write exactly when no flush finds a write of another block pending |
| `VersionHistory.AttributedIff` | app/core/audit_context.py:19-39 | the same for every program, counting only flushes that are not rolled back, for the flushed and for the committed versions |
| `VersionHistory.NestedFlushMisattributes` | app/core/audit_context.py:19-39 | a write followed by a nested block that flushes is attributed to that block |
| `VersionHistory.BlockAttributesIff` | app/core/audit_context.py:19-39 | a block followed by a flush attributes all that both flush to itself and the blocks nested in it exactly when it leaves nothing pending, leaves by an exception, or the block outside is one of those |
| `VersionHistory.AuditedSession.RecordSnapshot` | app/services/entity_version_listeners.py:29-50 | appends the next version of the entity with the current context |
| `VersionHistory.AuditedSession.FlushPending` | app/services/entity_version_listeners.py:53-70 | a flush records one version per pending entity |
| `VersionHistory.AuditedSession.Run` | app/core/audit_context.py:19-51 | set and reset context variables implement nested blocks: restored at each exit, by exception too, and each flush attributed to the innermost block around it |
| `AccountPurge.AccountDeletionService.PurgeUserData` | app/repositories/account_deletion_repository.py:20-58 | the statements in order, committed, or the old state |
| `AccountPurge.AccountDeletionService.DeleteUser` | app/repositories/account_deletion_repository.py:60-65 | deletes the user, with the rows that cascade, unless a row refers to them without a cascade |
| `AccountPurge.AccountDeletionService.PurgeAccount` | app/services/account_deletion_service.py:44-54 | both transactions in a row |
| `AccountPurge.AccountDeletionService.PurgeDeletedUsers` | app/services/account_deletion_service.py:41-55 | the loop is the run that the laws of `AccountPurgeRuns` are about: it counts the purged, and ends without a count at the first failure |
| `AccountPurgeLaws.PurgeKeepsConstraints` | app/repositories/account_deletion_repository.py:20-58 | every constraint holds after each of the eight statements |
| `AccountPurgeLaws.PurgedIff` | app/services/account_deletion_service.py:25-55 | an account is purged exactly when no chat message attaches its collections, no version records its contributions, and no chat or import row names it |
| `AccountPurgeLaws.DeleteCollectionsIff` | app/repositories/account_deletion_repository.py:43-45 | the deletion of the collections is refused exactly when it would leave a foreign key dangling |
| `AccountPurgeLaws.DeleteContributionsIff` | app/repositories/account_deletion_repository.py:55-57 | and so is that of the contributions |
| `AccountPurgeLaws.PurgedIffConsistent` | app/services/account_deletion_service.py:44-54 | in all, an account is purged exactly when that leaves every foreign key with its row |
| `AccountPurgeLaws.RecordedContributionRefuses` | app/repositories/account_deletion_repository.py:55-58 | a user whose contribution a version records is not purged, not even in part |
| `AccountPurgeLaws.SentCollectionRefuses` | app/repositories/account_deletion_repository.py:43-45 | nor is a user who sent a friend a collection |
| `AccountPurgeLaws.DeletionKeepsConstraintsIff` | app/repositories/account_deletion_repository.py:60-65 | the deletion of a user is refused exactly when it would leave a foreign key dangling |
| `AccountPurgeLaws.PurgedLeavesNoReference` | app/repositories/account_deletion_repository.py:20-65 | after a purge nothing refers to a deleted row, and only versions can still name the user, the same as before: so the user is mentioned nowhere exactly when no version named them |
| `AccountPurgeLaws.VersionNamesPurgedUser` | app/models/entity_version.py:43-46 | the account of a user who changed a book is purged, and the version still names them |
| `AccountPurgeLaws.HalfPurgedIff` | app/services/account_deletion_service.py:44-54 | the account loses its data and keeps its user row exactly when a chat or import row names it |
| `AccountPurgeLaws.ThreadLeavesHalfPurged` | app/services/account_deletion_service.py:44-54 | a user with a chat thread, though empty, is half purged |
| `AccountPurgeLaws.PurgeIsIdempotent` | app/repositories/account_deletion_repository.py:20-65 | purging again changes nothing |
| `AccountPurgeLaws.ReviewsStay` | app/services/account_deletion_service.py:29-31 | every review stays, with at most its author nulled |
| `AccountPurgeLaws.OthersKeepTheirRows` | app/services/account_deletion_service.py:32-40 | other users' rows stay, with at most the lent-to and the contribution's reviewer_id nulled; only shared friendships go; every table the statements do not write is unchanged |
| `AccountPurgeLaws.DeletionKeepsOthers` | app/repositories/account_deletion_repository.py:60-65 | the deletion of the user row takes only the user's own tokens and backup records along |
| `AccountPurgeLaws.RatingsKept` | app/repositories/review_repository.py:117-135 | a purge keeps every book's aggregate |
| `AccountPurgeLaws.ReleaseRatingsKept` | app/repositories/review_repository.py:137-147 | and every release's |
| `AccountPurgeRuns.PurgeIsLocal` | app/services/account_deletion_service.py:44-54 | the purge of one account, finished or not, leaves every condition of another's as it was |
| `AccountPurgeRuns.OutcomeIsItsOwn` | app/services/account_deletion_service.py:44-54 | a run gets past an account exactly when it got past those before it and this one could be purged at its start |
| `AccountPurgeRuns.RunCompletesIff` | app/services/account_deletion_service.py:41-55 | a run over distinct users completes exactly when each could be purged at its start; then it counts and removes them all |
| `AccountPurgeRuns.RunEndsAt` | app/services/account_deletion_service.py:46-54 | otherwise it leaves the database after the accounts before the first that could not be purged and that one's failed purge, and all users from there on |
| `AccountPurgeRuns.PurgesThePurgeableIff` | app/services/account_deletion_service.py:46-54 | a run removes exactly the accounts that could be purged at its start exactly when none of them is listed after one that could not |
| `AccountPurgeRuns.RunKeepsConstraints` | app/services/account_deletion_service.py:41-55 | a run keeps every constraint, wherever it ends |
| `AccountPurgeRuns.PurgesCommute` | app/repositories/account_deletion_repository.py:20-65 | two accounts are purged to the same database in either order |
| `AccountPurgeRuns.PurgesInAnyOrder` | app/repositories/account_deletion_repository.py:20-65 | and so are many, if each is tried whether or not others fail |
| `AccountPurgeRuns.OrderDoesNotMatter` | app/services/account_deletion_service.py:41-55 | whether a run completes does not depend on the order, and neither do the database and the count of a completed run |
| `AccountPurgeRuns.RunOrderMattersIff` | app/services/account_deletion_service.py:41-55 | which users a run leaves depends on the order exactly when some accounts can be purged and some cannot |
| `AccountPurgeRuns.FailureStopsRest` | app/services/account_deletion_service.py:52-54 | three users, two of them with an empty thread: one order removes the third and the other does not |
| `AccountPurgeRuns.NextRunChangesNothing` | app/services/account_deletion_service.py:41-55 | the next run over the accounts left, in the same order, ends at the same account and changes nothing |

## Left out

- PurgeDeletedUsers: does not promise that accounts after a failed one are tried, nor a count for a run with a failure,
  because the loop gives neither.
- Concurrent transactions: runs are serial. Several services check and then act, and rely on unique keys otherwise.
- Created and updated timestamps, and columns that no modelled statement reads or writes.
- The scale of PostgreSQL's numeric quotients, and time zones other than UTC: minutes are exact before they are rounded.
- UUIDs: keys are numbers given out in increasing order, so a chat thread's smaller user is the smaller number.
- `str.lower`: any function in `Slugify`; only `SlugifyIdempotent` needs that it leaves slugs as they are.
- `normalize_isbn`: any partial function from strings to codes; stdnum is not part of this model.
- `_sort_name`: any function of the full name; every result about imports holds for each.
- `SequenceMatcher` ratios: any relation between two texts, not assumed symmetric.
- `_extract_hit_data`: the hits are taken as they come to the deduplication.
- Usernames: a friend request names its target by key, which stands for the lookup by username.
- The answers of `list_*` and `get_*` queries that only filter rows; the text of error messages.
- `get_messages` marking as read after it fetched a page; `MarkMessagesAsRead` is a method of its own, outside the runs.
- Ordering inside one flush: pending rows are written in the order they were added.
- Relationship changes, bulk UPDATE statements and rolled-back savepoints in the version history; created_at of a version.
- The version rows that a merge, an import or a replace-restore writes through the listeners.
- The user and the friends of an export, which a restore ignores, and the JSON of the backup file, taken to be faithful.
- Google Drive, external book sources, HTTP routes, schemas, logging, authentication.
- Spreadsheet import (`import_rows`), contribution workflow, lending, metadata refresh: they would only add easy members.
- Deletion of books, collections and users in the runs of the friendship and chat services.
- The audit log of administrators (app/models/audit_log.py): its `actor_id` and `target_id` have no foreign keys and keep
  naming a purged user.
- Widths of columns that only the database bounds elsewhere: years, item positions, and NUL characters in text.
- `purge_deleted_users`: which users are due, and the clock. That a rollback expires loaded rows, and that reading one
  outside an awaited call raises, are rules of SQLAlchemy's asyncio sessions and taken as given.
