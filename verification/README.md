# Verification of the Open WebUI backend cores

This project models seven stateful cores of the Open WebUI backend in Dafny 4.11 and proves what they promise
over all inputs, all runs and all interleavings. `dafny verify dfyconfig.toml` checks everything.

| files | what they model |
|---|---|
| `Ranking.dfy`, `Retrieval.dfy`, `CollectionQuery.dfy` | merging vector search results: best score per text, stable sort, cut to k; querying every collection for every query |
| `Rerank.dfy`, `Hybrid.dfy` | reranking over documents that may share metadata objects; the hybrid collection query |
| `Sources.dfy` | which collections the attached items query |
| `Folders.dfy`, `FolderEdits.dfy`, `FolderDepth.dfy`, `FolderCycles.dfy`, `FolderStore.dfy` | the folder forest: traversal, recursive deletion from the table it reads, search, moves, orphan repair, the deletion endpoint with its cascade into chats; each recursion may run out of calls, and an endless one does |
| `Tasks.dfy`, `RedisTasks.dfy` | the in-process task registry, and its Redis copy under interleaved saves and two-phase cleanups |
| `ChatStore.dfy`, `ChatFields.dfy`, `ChatTags.dfy`, `ChatShares.dfy`, `ChatUndo.dfy` | the chat table with tags, archive flag and shared snapshots |
| `ConfigDoc.dfy`, `ConfigStore.dfy`, `ConfigRuns.dfy`, `ConfigReads.dfy`, `ConfigStored.dfy` | dotted paths in the stored document, settings of one process, and runs of writes, reads and imports on many instances over one database, with Redis or without |
| `AudioSplit.dfy` | splitting audio under a size limit, and joining transcripts |
| `Groups.dfy`, `Notes.dfy`, `Names.dfy` | group membership, streamed note pages, tag and folder name normal forms |

How to read it. Code that changes tables or dicts in place is a class whose methods are proved equal to a
specification function on values (`Next`, `Saved`, `Merged`, `Split`, ...); the theorems say, without naming these
functions' parts, what they compute (`MergeMeaning`, `HybridSearchIsBest`, `RowsExactly`, `SplitExactly`, ...), and
what runs of them keep. Operations that are one update in the source are methods too, but have no row of their own.
Runs are sequences of steps in any order; a step is what happens between two awaits, and a
Redis pipeline is one step.

Where an obvious claim is false of the code, the exact condition is proved instead:

- a shared Redis set and the hash disagree exactly when a delete counted on an empty set runs after a new save (`AgreementExactly`; `LossIsReached` is a run that does);
- Redis is empty at rest exactly when no save came after its own task's cleanup (`QuiescentEmpty`);
- in-process stop_item_tasks, which walks the live list, stops what it should exactly when no stop that leaves something to go on with sees a task up to the cursor cleaned up (`StopItemExactly`); when each stopped task is cleaned up during the next stop, it misses every even position of the list but the first (`LaggingMisses`);
- a snapshot changes exactly when its chat is shared again with something new, or an administrator's edit or a tag replacement names the snapshot row itself and changes it (`SnapshotKeptExactly`; `AdminEditChangesSnapshot` is an input);
- the hybrid query gives up exactly when something could be fetched and every query of it raises, so an outage of all collections gives an empty result (`HybridFailsExactly`);
- with a rerank limit above k the hybrid query returns nothing (`HybridFindsExactly`): the unpacking at open-webui/backend/open_webui/retrieval/utils.py:225 binds the metadata column as documents;
- the fallback announced by the error text at open-webui/backend/open_webui/retrieval/utils.py:452 never runs: line 756 requires hybrid search to be off (`Sources.Retrieve`);
- traversal and deletion of folders succeed under some limit on open calls exactly when nothing they meet lies on a cycle (`DepthBoundedExactly`, `FitsExactly`); a deletion that breaks off reports success and keeps the folder and all chats; it takes what `Taken` says, which over a cycle is the trees of the children listed before the first one that leads to a cycle, there and so on (`TakenOverCycle`), and references dangle exactly when the user has a chat in one of these (`BrokenCascade`, `CascadeOverCycle`; `BrokenCascadeDangles` is an input);
- moving a folder keeps the table acyclic exactly when the new parent is neither the folder nor below it (`MoveKeepsAcyclic`);
- each operation of `ChatStore.Op`, whoever calls it, keeps tag table and chats in agreement exactly under `StepOk`, and share links whole exactly under `ShareOk`; a deletion of someone else's chat, which leaves that chat in place, can drop the caller's own tag row (`ForeignDeleteCanBreak`), and cloning a shared chat can leave tags without rows (`SharedCloneCanBreak`);
- a write to a setting goes through exactly when nothing but dicts lies on its path in what its instance last imported or started from (`SavesExactly`); a write that raises changes only its own instance's value, until a read finds another in Redis (`ReadsLatest`);
- the database holds only the last writing instance's own settings (`DatabaseIsLastStored`, `RestartReloads`);
- the note loop takes one note for a limit below one (`TakesLimit`).

## Model

| member | source | states |
|---|---|---|
| Retrieval.MergeAndSort | open-webui/backend/open_webui/retrieval/utils.py:266-310 | the nested loops over results and rows compute `Merged` of all rows whose document is a text; unpacking an empty cut of a non-empty dict is the error |
| Retrieval.AbsorbColumns | open-webui/backend/open_webui/retrieval/utils.py:278-294 | one result's rows, in order, are absorbed into the insertion-ordered dict of best hits |
| Retrieval.AbsorbedRepresents | open-webui/backend/open_webui/retrieval/utils.py:268-294 | the dict holds under each text seen the first hit reaching that text's best score, and nothing else |
| Retrieval.MergeMeaning | open-webui/backend/open_webui/retrieval/utils.py:296-310 | for every k: as many entries as the cut keeps of the distinct texts, descending, each text once as its first best hit with its metadata, and no omitted text beats a kept one |
| Retrieval.MergeFailsExactly | open-webui/backend/open_webui/retrieval/utils.py:298-303 | the merge raises exactly when there is a text and the cut keeps none |
| Retrieval.MergeTies | open-webui/backend/open_webui/retrieval/utils.py:289-298 | tied entries come in the order of the first hits of their texts |
| Retrieval.HitsMeaning | open-webui/backend/open_webui/retrieval/utils.py:274-287 | a result's hits are the full rows of its columns whose document is a text, each with its own score and metadata |
| Retrieval.AllHitsInTurn | open-webui/backend/open_webui/retrieval/utils.py:274-283 | results are gone through in turn |
| Retrieval.MergeIgnoresOrder | open-webui/backend/open_webui/retrieval/utils.py:266-310 | the score list depends on neither the order nor the repetition of the result lists |
| Retrieval.ReachDeterminesScores | open-webui/backend/open_webui/retrieval/utils.py:296-310 | inputs in which every score is reached by equally many texts, up to k, merge to the same scores |
| Retrieval.CutLosesNothing | open-webui/backend/open_webui/retrieval/utils.py:116-126 | cutting each ranked list to its best k before merging leaves the merged scores unchanged, with ties and shared texts |
| Ranking.SortSorts | open-webui/backend/open_webui/retrieval/utils.py:298 | the sort is descending and a permutation |
| Ranking.SortStable | open-webui/backend/open_webui/retrieval/utils.py:298 | entries of equal score keep their input order |
| CollectionQuery.QueryCollection | open-webui/backend/open_webui/retrieval/utils.py:330-379 | every named collection is queried once per query in submission order, failures and missing results dropped, the rest merged |
| CollectionQuery.TasksAt | open-webui/backend/open_webui/retrieval/utils.py:362-366 | one search per collection and query, the collections in turn for each query |
| CollectionQuery.AnswersMeaning | open-webui/backend/open_webui/retrieval/utils.py:339-377 | what is merged is exactly what the searches of named collections found |
| CollectionQuery.QueryIsGlobalBest | open-webui/backend/open_webui/retrieval/utils.py:330-379 | with a store that answers the first k of a ranking or fails, the query scores as if all hits that some named collection ranks for some query were merged whole |
| Rerank.CompressDocuments | open-webui/backend/open_webui/retrieval/utils.py:1043-1092 | returns new documents for the positions that are best: every returned one reaches the threshold unless it is zero, higher scores first and ties by position, no position that is left out goes before one that is kept, as many as top_n keeps; each with text and fields of its document and its own score, the input metadata being written in turn; without scores the documents come back untouched |
| Rerank.RerankMeaning | open-webui/backend/open_webui/retrieval/utils.py:1072-1079 | the result and the rest are the eligible entries in one descending order, the result being the first top_n |
| Rerank.RerankTies | open-webui/backend/open_webui/retrieval/utils.py:1077-1079 | kept entries of a score are the first such entries of the input, in input order |
| Rerank.RerankPicks | open-webui/backend/open_webui/retrieval/utils.py:1072-1079 | reranking keeps the best positions in that sense |
| Rerank.OwnScores | open-webui/backend/open_webui/retrieval/utils.py:1079-1081 | the kept input documents are left with their own scores exactly when those sharing a metadata object share the score |
| Hybrid.HybridSearch | open-webui/backend/open_webui/retrieval/utils.py:382-455 | fetches each collection once, leaves out those it cannot fetch, queries the rest with every query, fails only when some query failed and none answered, else merges |
| Hybrid.HybridFailsExactly | open-webui/backend/open_webui/retrieval/utils.py:393-452 | it gives up exactly when some fetched collection is queried and every such query raises |
| Hybrid.HybridAnswerHits | open-webui/backend/open_webui/retrieval/utils.py:213-233 | one answer contributes its reranked entries, or no entry at all once k < k_reranker swaps the columns |
| Hybrid.HitsAreOffered | open-webui/backend/open_webui/retrieval/utils.py:411-455 | while k >= k_reranker a hit reaches the merge exactly when the reranked entries of some answered pair hold it |
| Hybrid.HybridIsBest | open-webui/backend/open_webui/retrieval/utils.py:411-455 | a successful query then returns as many as k keeps of the distinct texts among the reranked entries of all pairs, each at its best, descending, and no omitted entry beats a kept one |
| Hybrid.HybridSearchIsBest | open-webui/backend/open_webui/retrieval/utils.py:382-455 | the same over the pairs of a named collection that could be fetched and a query |
| Hybrid.HybridThreshold | open-webui/backend/open_webui/retrieval/utils.py:150-239 | nothing the hybrid query returns scores below a nonzero r |
| Hybrid.HybridFindsExactly | open-webui/backend/open_webui/retrieval/utils.py:217-227 | it finds something exactly when k >= k_reranker and some document passes the threshold |
| Sources.GetSources | open-webui/backend/open_webui/retrieval/utils.py:535-771 | queries for each item without direct content the collections not yet extracted, marks them extracted even when the query fails, and keeps the items that got content |
| Sources.Retrieve | open-webui/backend/open_webui/retrieval/utils.py:733-764 | full context, hybrid or plain retrieval; a failing hybrid query is not retried |
| Sources.EachCollectionOnce | open-webui/backend/open_webui/retrieval/utils.py:725-766 | the queried sets are pairwise disjoint and hold exactly the collections that some item asks for |
| Sources.RequestsExactly | open-webui/backend/open_webui/retrieval/utils.py:571-723 | each kind of item asks for the collections, or brings the content, that its branch says; file ids get their prefix unless legacy |
| Sources.FreshMeaning | open-webui/backend/open_webui/retrieval/utils.py:725-731 | an item has queried what it asks for and no earlier item does |
| Sources.HandedMeaning | open-webui/backend/open_webui/retrieval/utils.py:725-766 | the queries are what the items have left, leaving out items that have nothing |
| Sources.AnsweringMeaning | open-webui/backend/open_webui/retrieval/utils.py:725-771 | an item becomes a source exactly when it brings content, or has something left to query and the query answers |
| Sources.SourcesInOrder | open-webui/backend/open_webui/retrieval/utils.py:768-771 | the sources keep the order of the items |
| FolderStore.FolderTable.GetChildrenFolders | open-webui/backend/open_webui/models/folders.py:129-151 | None for an unknown folder or when the recursion runs out of calls, else the post-order of what lies below it |
| FolderStore.FolderTable.DeleteChildren | open-webui/backend/open_webui/models/folders.py:292-303 | re-reading the shrinking table at each folder it succeeds exactly when the recursion fits, and then deletes exactly what lies below, in post-order; breaking off, it has deleted exactly `Taken` |
| FolderStore.FolderTable.DeleteFolder | open-webui/backend/open_webui/models/folders.py:281-311 | removes exactly the folder and its descendants, keeps every other row in place, and lists the folder then the post-order; when the recursion runs out of calls the list is empty, the folder stays, and exactly `Taken` is gone |
| FolderStore.FolderTable.SearchByNames | open-webui/backend/open_webui/models/folders.py:318-347 | each found folder once: exactly the matching folders and everything below them; fails exactly when the traversal below some match does |
| FolderStore.FolderTable.RepairParents | open-webui/backend/open_webui/routers/folders.py:48-60 | moves the user's orphans, and only them, to the top level |
| FolderStore.FolderTable.DeleteFolderById | open-webui/backend/open_webui/routers/folders.py:259-302 | forbidden, not found, or deleted with all chats of the user in any deleted folder; after a deletion that broke off it reports success with folder and chats in place and exactly `Taken` gone |
| Folders.Forest.DepthBoundedExactly | open-webui/backend/open_webui/models/folders.py:292-303 | the recursion below a folder has bounded depth exactly when neither the folder nor anything below it lies on a cycle |
| Folders.Forest.FitsExactly | open-webui/backend/open_webui/models/folders.py:136-142 | some number of open calls suffices only when neither the folder nor anything below it lies on a cycle, and then one more than there are descendants does |
| Folders.Forest.PostOrderElements | open-webui/backend/open_webui/models/folders.py:136-142 | the recursion visits exactly the proper descendants, each once |
| Folders.Forest.PostOrderLowerFirst | open-webui/backend/open_webui/models/folders.py:292-299 | a folder is visited after everything below it |
| Folders.Forest.SiblingsInOrder | open-webui/backend/open_webui/models/folders.py:136-142 | siblings are visited in the order in which they are stored |
| FolderEdits.DeletionOrder | open-webui/backend/open_webui/models/folders.py:281-308 | a deletion lists each deleted id once, the folder first, then lower folders before higher ones |
| FolderEdits.CascadeLeavesNoDangling | open-webui/backend/open_webui/routers/folders.py:273-283 | if nothing of the user dangled before, no remaining folder or chat points at a deleted folder |
| FolderDepth.AcyclicCut | open-webui/backend/open_webui/models/folders.py:292-303 | deleting whole acyclic subtrees neither makes nor breaks a cycle |
| FolderDepth.ChildTurn | open-webui/backend/open_webui/models/folders.py:292-303 | a child judged in what is left of the table fits the recursion, and has the tree and the order, that it had in the whole table |
| FolderDepth.TakenMeaning | open-webui/backend/open_webui/models/folders.py:292-303 | a deletion with any limit on open calls takes all below exactly when the recursion fits, else only whole trees without cycles from below |
| FolderCycles.TakenOverCycle | open-webui/backend/open_webui/models/folders.py:292-303 | over a cycle, with calls enough for the trees without one, it takes exactly the trees of the children listed before the first that leads to a cycle, at each folder of the walk that enters that child, and fails |
| FolderCycles.BrokenCascade | open-webui/backend/open_webui/routers/folders.py:273-283 | after a deletion that broke off references dangle exactly when the user had a chat in a folder it takes |
| FolderCycles.CascadeOverCycle | open-webui/backend/open_webui/routers/folders.py:273-283 | over a cycle that is a chat in a folder that the walk leaves behind |
| FolderCycles.LoopedTaken | open-webui/backend/open_webui/models/folders.py:292-303 | a table in which deleting a folder takes one below it and breaks off, under every limit of at least two calls |
| FolderCycles.BrokenCascadeDangles | open-webui/backend/open_webui/routers/folders.py:273-283 | a chat in that folder is left pointing at nothing |
| FolderEdits.CascadePass | open-webui/backend/open_webui/models/chats.py:1042-1052 | the cascade into one folder is the chat table's own deletion by folder |
| FolderEdits.SearchMeaning | open-webui/backend/open_webui/models/folders.py:330-340 | a folder is found exactly when it matches or lies below a match |
| FolderEdits.MatchesMeaning | open-webui/backend/open_webui/models/folders.py:318-332 | a folder matches when its words are those of some query up to case |
| FolderEdits.SearchClosed | open-webui/backend/open_webui/models/folders.py:335-340 | children of found folders are found |
| FolderEdits.MoveKeepsAcyclic | open-webui/backend/open_webui/models/folders.py:192-213 | the table stays acyclic exactly when the new parent is neither the folder nor below it |
| FolderEdits.MoveExactly | open-webui/backend/open_webui/models/folders.py:192-213 | a move sets the parent of the user's folder of that id and changes nothing else |
| FolderEdits.RepairMeaning | open-webui/backend/open_webui/routers/folders.py:53-60 | after the repair no parent is missing, tables without orphans are unchanged, acyclicity is kept |
| FolderEdits.RepairExactly | open-webui/backend/open_webui/routers/folders.py:53-60 | exactly the user's folders with a missing parent go to the top level, and nothing else changes |
| Tasks.TaskRegistry.CreateTask | open-webui/backend/open_webui/tasks.py:97-114 | registers the task and appends it to its item's list |
| Tasks.TaskRegistry.CleanupTask | open-webui/backend/open_webui/tasks.py:81-94 | unregisters the task, takes it off its named item's list and drops an emptied list |
| Tasks.TaskRegistry.StopTask | open-webui/backend/open_webui/tasks.py:140-170 | cancels exactly when the task is still registered, and unregisters it |
| Tasks.RegistryInvariant | open-webui/backend/open_webui/tasks.py:81-119 | in every reachable state each named item's list is its not yet cleaned tasks in creation order, no list is empty, and `tasks` is what was neither cleaned nor stopped |
| Tasks.StopsOnce | open-webui/backend/open_webui/tasks.py:156-160 | at most one stop call cancels a given task |
| Tasks.StopItemTasks | open-webui/backend/open_webui/tasks.py:173-186 | the walk over the live list makes the calls `Calls` says, whatever is cleaned up, created and stopped during its stops, ending with the first that fails, and succeeds exactly when all do |
| Tasks.StopItemExactly | open-webui/backend/open_webui/tasks.py:173-186 | it makes the intended calls exactly when no stop that leaves something to go on with sees a task it has been to cleaned up |
| Tasks.IntendedMissesNone | open-webui/backend/open_webui/tasks.py:173-186 | when no other call stops anything, the intended calls stop every listed task that no cleanup takes first |
| Tasks.NextVisit | open-webui/backend/open_webui/tasks.py:173-186 | after one stop the walk reaches the next task it has not been to exactly when none it has been to was cleaned up |
| Tasks.LaggingMisses | open-webui/backend/open_webui/tasks.py:173-186 | when each stopped task is cleaned up during the next stop, exactly the first task and those at odd positions are stopped |
| Tasks.StopItemCanSkip | open-webui/backend/open_webui/tasks.py:173-186 | three tasks of which the third is never stopped, although it should be |
| RedisTasks.RedisServer.SaveTask | open-webui/backend/open_webui/tasks.py:51-56 | hash entry and set member in one pipeline |
| RedisTasks.RedisServer.CleanupFirst | open-webui/backend/open_webui/tasks.py:59-64 | hash entry and set member go and the set is counted, in one pipeline |
| RedisTasks.StepAgrees | open-webui/backend/open_webui/tasks.py:51-66 | a step breaks the agreement of set and hash exactly when it deletes a set counted empty while the item has a task |
| RedisTasks.SetsWithinHash | open-webui/backend/open_webui/tasks.py:51-66 | over every interleaving each set is non-empty and holds only tasks the hash maps to that item, and the hash maps exactly the saved tasks not cleaned since |
| RedisTasks.AgreementExactly | open-webui/backend/open_webui/tasks.py:59-66 | set and hash agree throughout a run exactly when no delete counted on an empty set runs while the item has a task |
| RedisTasks.UndisturbedAgrees | open-webui/backend/open_webui/tasks.py:51-66 | they agree throughout every run in which no save for the item falls between a zero count and its delete |
| RedisTasks.SaveBetweenIsLost | open-webui/backend/open_webui/tasks.py:64-66 | a save in that gap is lost from the set while the hash keeps it |
| RedisTasks.LossIsReached | open-webui/backend/open_webui/tasks.py:51-66 | six steps from empty tables after which the hash has a task that its set lost |
| RedisTasks.QuiescentEmpty | open-webui/backend/open_webui/tasks.py:51-119 | once every task is saved and cleaned, Redis is empty exactly when no save came after its cleanup |
| ChatStore.ChatTable.ImportChat | open-webui/backend/open_webui/routers/chats.py:149-164 | the chat with its tags as given, and a row per normalised tag except none |
| ChatTags.CloneKeeps | open-webui/backend/open_webui/routers/chats.py:648-673 | cloning a chat keeps tag table and chats in agreement exactly when it is unarchived or its tags are all carried |
| ChatStore.ChatTable.CloneSharedChat | open-webui/backend/open_webui/routers/chats.py:685-712 | a copy with the tags and folder of the row a share link resolves to, or of any row for an administrator, and no new tag row |
| ChatStore.ChatTable.EditChat | open-webui/backend/open_webui/routers/chats.py:455-509 | only the content of the named chat changes, by its owner or an administrator |
| ChatShares.SharingKept | open-webui/backend/open_webui/routers/chats.py:821-830 | moving, editing, tagging and archiving leave every row, its owner and its share id in place |
| ChatStore.ChatTable.ListChatsByTag | open-webui/backend/open_webui/routers/chats.py:419-429 | the user's chats with the tag, archived ones included; when there is none the tag's row goes |
| ChatStore.ChatTable.AddTagEndpoint | open-webui/backend/open_webui/routers/chats.py:859-882 | tag and row are added unless the chat is not the user's, the tag is none or already there |
| ChatStore.ChatTable.AddChatTag | open-webui/backend/open_webui/models/chats.py:908-929 | inserts the row if missing and the tag if missing; for an unknown chat the row alone |
| ChatStore.ChatTable.UpdateChatTags | open-webui/backend/open_webui/models/chats.py:212-230 | clears, purges uncarried rows, then adds every name but none |
| ChatStore.ChatTable.RemoveTagEndpoint | open-webui/backend/open_webui/routers/chats.py:893-906 | the tag goes, and its row if no unarchived chat carries it |
| ChatStore.ChatTable.ClearTagsEndpoint | open-webui/backend/open_webui/routers/chats.py:918-928 | all tags go, and the rows no unarchived chat carries |
| ChatStore.ChatTable.PurgeTags | open-webui/backend/open_webui/routers/chats.py:924-926 | the loop drops exactly the user's rows of those tags that the given number of chats carry |
| ChatStore.ChatTable.ToggleArchiveEndpoint | open-webui/backend/open_webui/routers/chats.py:724-743 | archiving purges uncarried rows, unarchiving restores rows |
| ChatStore.ChatTable.DeleteChat | open-webui/backend/open_webui/routers/chats.py:577-603 | purges rows of tags carried once, deletes the chat if permitted, and its snapshots |
| ChatStore.ChatTable.DeleteAllChats | open-webui/backend/open_webui/models/chats.py:1030-1065 | the user's chats and their snapshots go |
| ChatFields.RowsExactly | open-webui/backend/open_webui/models/chats.py:126-1065 | for every operation of ChatStore.Op: the rows afterwards are the old ones but those a deletion or an unsharing takes, and the new one if the operation enters one |
| ChatFields.NewRow | open-webui/backend/open_webui/models/chats.py:126-333 | whose a new row is and what it holds, for a created, imported, cloned and shared chat |
| ChatFields.ContentExactly | open-webui/backend/open_webui/routers/chats.py:455-830 | the content of a row changes exactly by an edit of its owner or an administrator, a move, or as a snapshot when its chat is shared again |
| ChatFields.FolderExactly | open-webui/backend/open_webui/routers/chats.py:755-830 | its folder by a move of its owner, or as such a snapshot |
| ChatFields.ArchivedExactly | open-webui/backend/open_webui/models/chats.py:369-422 | its archive flag by its owner's toggle or bulk archive |
| ChatFields.ShareIdExactly | open-webui/backend/open_webui/models/chats.py:300-389 | its share id by its owner's first share and by unsharing |
| ChatFields.TagsExactly | open-webui/backend/open_webui/models/chats.py:212-1008 | a tag is on a row afterwards exactly when it was put there or was there and was not taken off, or as such a snapshot |
| ChatFields.TagRowsExactly | open-webui/backend/open_webui/routers/chats.py:149-928 | a tag row is there afterwards exactly when the caller's operation inserts it, or it was there and the caller's operation does not delete it |
| ChatFields.DeleteMeaning | open-webui/backend/open_webui/routers/chats.py:577-603 | the owner's or an administrator's delete removes the chat, anyone else's keeps it; no snapshot of it is left, and every other row is there unchanged |
| ChatFields.DeleteAllMeaning | open-webui/backend/open_webui/models/chats.py:1030-1065 | no chat of the user is left, archived or not, nor a snapshot of one, and the rest is unchanged |
| ChatTags.DeleteInFolderKeeps | open-webui/backend/open_webui/models/chats.py:1042-1052 | deleting a folder's chats keeps the agreement exactly when every carried tag is also carried outside the folder |
| ChatShares.DeleteInFolderLinks | open-webui/backend/open_webui/models/chats.py:1042-1052 | and leaves share links whole exactly when none of these chats is shared |
| ChatStore.ChatTable.ShareChat | open-webui/backend/open_webui/routers/chats.py:755-780 | creates the snapshot and the share id, or refreshes the snapshot, one of them when there are several |
| ChatStore.ChatTable.UnshareChat | open-webui/backend/open_webui/routers/chats.py:794-804 | removes snapshot and share id, false when there was none |
| ChatTags.StepExactly | open-webui/backend/open_webui/routers/chats.py:577-928 | for every operation of ChatStore.Op and every caller: the agreement of tag table and unarchived chats survives exactly under the operation's condition |
| ChatTags.RunAgrees | open-webui/backend/open_webui/routers/chats.py:577-928 | over every run of such steps a user has a tag row exactly when an unarchived chat of theirs carries the tag |
| ChatTags.OrdinaryRunAgrees | open-webui/backend/open_webui/routers/chats.py:577-928 | from empty tables, over every run of ordinary steps (tagging unarchived chats, removing, clearing, toggling, deleting own unarchived chats, importing chats whose tags are normalised, moving, sharing) tag rows and carried tags agree |
| ChatTags.DeleteKeeps | open-webui/backend/open_webui/routers/chats.py:577-603 | an owner's delete keeps the agreement exactly when the chat is unarchived or no row of its tags is carried exactly once; anyone else's exactly when the caller carries none of its tags exactly once and, for an administrator, its owner carries its tags elsewhere |
| ChatTags.ForeignDeleteCanBreak | open-webui/backend/open_webui/routers/chats.py:596-603 | a deletion of someone else's chat, which stays, after which the caller carries a tag without a row |
| ChatTags.ForeignReplaceKeeps | open-webui/backend/open_webui/models/chats.py:212-230 | replacing the tags of someone else's chat keeps it exactly when the caller carries the new tags already and the owner carries elsewhere every tag that changes |
| ChatTags.CloneSharedKeeps | open-webui/backend/open_webui/routers/chats.py:685-712 | cloning a shared chat keeps it exactly when the cloner carries all its tags already |
| ChatTags.SharedCloneCanBreak | open-webui/backend/open_webui/routers/chats.py:685-712 | a shared chat whose clone has a tag without a row |
| ChatTags.ListKeeps | open-webui/backend/open_webui/routers/chats.py:419-429 | the row dropped by an empty listing was not there |
| ChatTags.ArchiveAllKeeps | open-webui/backend/open_webui/models/chats.py:415-422 | bulk archive keeps it exactly when no unarchived chat has a tag, bulk unarchive exactly when all tags are already carried |
| ChatShares.LinkedMeaning | open-webui/backend/open_webui/models/chats.py:300-345 | a share id is set exactly when there is one snapshot row, and names it |
| ChatShares.StepLinksExactly | open-webui/backend/open_webui/models/chats.py:300-389 | for every operation of ChatStore.Op: share ids and snapshots stay linked exactly under the operation's condition |
| ChatShares.RunLinks | open-webui/backend/open_webui/routers/chats.py:755-809 | over every run of such steps no snapshot is missing, doubled or orphaned |
| ChatShares.SnapshotKeptExactly | open-webui/backend/open_webui/models/chats.py:335-355 | a snapshot row that stays keeps its contents exactly when no share finds anything new in its chat and no administrator's edit or tag replacement names the row and changes it |
| ChatShares.AdminEditChangesSnapshot | open-webui/backend/open_webui/routers/chats.py:478-509 | a message edit that names the snapshot row changes what the link shows and not the chat |
| ChatShares.SnapshotIsLastPainted | open-webui/backend/open_webui/models/chats.py:308-353 | a snapshot always shows its chat as of the last share or re-share, with later edits and tag replacements of the row itself |
| ChatShares.SnapshotIsLastShared | open-webui/backend/open_webui/models/chats.py:308-353 | without steps that name the row itself, its chat as of the last share or re-share |
| ChatShares.ShareLinkResolves | open-webui/backend/open_webui/models/chats.py:566-578 | a share link resolves exactly while the snapshot exists, and to the snapshot |
| ChatUndo.ToggleTwice | open-webui/backend/open_webui/routers/chats.py:724-743 | archiving and unarchiving restore chats and tag table |
| ChatUndo.AddThenRemove | open-webui/backend/open_webui/routers/chats.py:859-906 | adding a new tag and removing it leaves no trace |
| ChatUndo.ReplaceIsClearThenAdd | open-webui/backend/open_webui/models/chats.py:212-230 | replacing the tags of an unarchived chat is clearing them and adding each name |
| ChatUndo.ReplaceBySame | open-webui/backend/open_webui/models/chats.py:212-230 | replacing a chat's tags by their display names changes nothing |
| ChatUndo.ShareThenUnshare | open-webui/backend/open_webui/routers/chats.py:755-809 | sharing publishes exactly the chat, and unsharing restores the tables |
| ChatUndo.OtherRowsUntouched | open-webui/backend/open_webui/models/chats.py:931-960 | what one user does leaves every other user's tag rows alone |
| ChatUndo.OtherChatsUntouched | open-webui/backend/open_webui/routers/chats.py:577-603 | and every other user's chats, unless it replaces tags of, or as an administrator edits or deletes, one of them |
| Names.DisplayRoundTrip | open-webui/backend/open_webui/routers/chats.py:155-162 | normalising the display name of an imported tag gives the tag's id back, whatever the underscores |
| Names.DisplayExactly | open-webui/backend/open_webui/routers/chats.py:155-162 | letter by letter: underscores become spaces, the first letter of each part is upper case and every other one lower case |
| Names.NormalizeMeaning | open-webui/backend/open_webui/models/folders.py:313-316 | a folder name normalises to its words in lower case, one space apart |
| Names.NormalizeDecides | open-webui/backend/open_webui/models/folders.py:313-332 | two names normalise alike exactly when their words agree up to case |
| Names.NormalizeIdempotent | open-webui/backend/open_webui/models/folders.py:313-316 | normalising twice is normalising once |
| AudioSplit.SplitAudio | open-webui/backend/open_webui/routers/audio.py:904-944 | the whole file, the chunks, or irreducible, as `Split` says |
| AudioSplit.ExportChunks | open-webui/backend/open_webui/routers/audio.py:924-942 | the outer loop computes `SplitFrom` and terminates for any encoder |
| AudioSplit.ReduceChunk | open-webui/backend/open_webui/routers/audio.py:930-934 | the halving loop computes `Reduced` |
| AudioSplit.SplitMeaning | open-webui/backend/open_webui/routers/audio.py:904-944 | the chunks tile the duration, fit the limit, are at least 1000 ms but for the last, and number at most ceil(duration/1000) |
| AudioSplit.SplitExactly | open-webui/backend/open_webui/routers/audio.py:904-944 | the file comes back whole exactly when it fits, and as given chunks exactly when these tile the duration and each fits and is what halving makes of a stretch of the estimated length, halved exactly as long as it is too large and longer than 5000 ms |
| AudioSplit.EstimateExactly | open-webui/backend/open_webui/routers/audio.py:917 | the estimate is the proportional length rounded down less one second, or the floor of 1000 ms above that, pinned from both sides |
| AudioSplit.TilesCover | open-webui/backend/open_webui/routers/audio.py:924-942 | every millisecond lies in exactly one chunk |
| AudioSplit.FailureHasCause | open-webui/backend/open_webui/routers/audio.py:936-938 | a split fails only over a stretch of at most 5000 ms that does not fit |
| AudioSplit.EstimateFits | open-webui/backend/open_webui/routers/audio.py:917 | with an encoder that spends at most the file's average rate, a stretch of the estimated length fits without halving, unless the estimate fell to its floor |
| AudioSplit.HalvingsBound | open-webui/backend/open_webui/routers/audio.py:930-934 | h halvings need more than 5000*2^(h-1) ms and leave the 2^h-th part rounded down |
| AudioSplit.Transcribe | open-webui/backend/open_webui/routers/audio.py:854-882 | texts joined in chunk order whatever order the jobs finish in; otherwise the first failing chunk's error |
| ConfigDoc.GetConfigValue | open-webui/backend/open_webui/config.py:128-136 | the walk returns what `Get` finds, with the type error for scalars on the way |
| ConfigDoc.GetOneMore | open-webui/backend/open_webui/config.py:128-136 | a longer path is entered from where its prefix leads, and fails as the prefix does |
| ConfigDoc.EnterExactly | open-webui/backend/open_webui/config.py:130-133 | a key is found in dicts only; it is absent from dicts, lists and strings that do not hold it, and anything else raises |
| ConfigDoc.SetDefined | open-webui/backend/open_webui/config.py:211-219 | a save goes through exactly when no proper prefix of the path holds anything but a dict |
| ConfigDoc.GetSet | open-webui/backend/open_webui/config.py:211-219 | the path then holds the saved value |
| ConfigDoc.GetSetBelow | open-webui/backend/open_webui/config.py:211-219 | and below it lies what the value holds |
| ConfigDoc.GetSetOther | open-webui/backend/open_webui/config.py:211-219 | incomparable paths keep what they held |
| ConfigStore.LoadAll | open-webui/backend/open_webui/config.py:166-187 | start-up fails exactly when a lookup raises; each setting starts with what is stored when that is not null, settings persist and the oauth exception does not apply, and with its environment default otherwise, also when nothing is stored |
| ConfigStore.UnderOauthMeaning | open-webui/backend/open_webui/config.py:173-176 | the exception is for the paths of several keys whose first is oauth |
| ConfigStore.AppConfig.SetAttr | open-webui/backend/open_webui/config.py:251-260 | value, document, database and Redis after an assignment, and which of them a raising save leaves alone |
| ConfigStore.AppConfig.GetAttr | open-webui/backend/open_webui/config.py:262-283 | a value in Redis is returned and replaces the one in memory |
| ConfigStore.AppConfig.SaveConfig | open-webui/backend/open_webui/config.py:142-155 | the import replaces document and database and updates settings in registry order until a lookup raises |
| ConfigStore.UpdatedMeaning | open-webui/backend/open_webui/config.py:205-209 | after an import, even one that fails half way, each setting has the stored non-null value if the update pass got to it, else the value it had |
| ConfigRuns.SavesExactly | open-webui/backend/open_webui/config.py:211-221 | in every run of writes, reads and imports a write goes through exactly when nothing but dicts lies on its path in the document its instance last imported or started from |
| ConfigReads.ReadsLatest | open-webui/backend/open_webui/config.py:224-283 | over every interleaving with Redis a read on any instance returns the most recent write that went through on any instance; before one, and always without Redis, what the instance itself last wrote, even when that raised, or imported |
| ConfigReads.ReadRemembered | open-webui/backend/open_webui/config.py:262-283 | a read leaves in its instance's memory what it returned and changes nothing else |
| ConfigStored.DocHoldsOwnWrites | open-webui/backend/open_webui/config.py:142-221 | each instance's document is its last import overlaid at every registered path with its own later writes that went through |
| ConfigStored.DocKeepsOthers | open-webui/backend/open_webui/config.py:211-221 | paths incomparable to all registered ones are as last imported |
| ConfigStored.DatabaseIsLastStored | open-webui/backend/open_webui/config.py:88-98 | the database is the document of whichever instance last wrote or imported |
| ConfigStored.RestartReloads | open-webui/backend/open_webui/config.py:165-187 | a restart reads back the last storing instance's own values since its last import, the imported or starting values of settings it did not write, and defaults for null or excepted oauth settings |
| ConfigStored.SingleInstance | open-webui/backend/open_webui/config.py:165-221 | with one instance and no import these are the last saved values of all settings |
| Groups.GroupTable.SyncGroups | open-webui/backend/open_webui/models/groups.py:246-280 | the user joins the listed groups and leaves the others; fails without effect on a listed group without member list |
| Groups.GroupTable.CreateGroups | open-webui/backend/open_webui/models/groups.py:214-244 | a new empty group for each listed name that no group had, existing groups unchanged; fails without effect exactly when some group has no member list |
| Groups.GroupTable.AddUsers | open-webui/backend/open_webui/models/groups.py:282-308 | a duplicate-free union |
| Groups.GroupTable.RemoveUsers | open-webui/backend/open_webui/models/groups.py:310-338 | a duplicate-free difference; fails without effect on a group without member list, and on a null argument unless the group has no members |
| Groups.GroupTable.RemoveFromAll | open-webui/backend/open_webui/models/groups.py:195-212 | the user's first occurrence goes from every group |
| Groups.SyncMeaning | open-webui/backend/open_webui/models/groups.py:246-280 | membership exactly by listed name, a new member last and a present one kept in place, lists stay duplicate-free, all other members keep their places; a user listed twice stays |
| Groups.CreateThenSync | open-webui/backend/open_webui/models/groups.py:214-280 | where creation goes through the sync after it succeeds and every listed name has a group with the user |
| Notes.GetNotes | open-webui/backend/open_webui/models/notes.py:131-179 | the streaming loop returns the page of the permitted notes |
| Notes.TakesLimit | open-webui/backend/open_webui/models/notes.py:170-177 | it is drop-skip-take-limit exactly when the limit is at least one or nothing remains |
| Notes.TakesAll | open-webui/backend/open_webui/models/notes.py:170-179 | without a limit it drops the skip alone, and a skip below zero drops nothing |
| Notes.LimitTakes | open-webui/backend/open_webui/models/notes.py:170-179 | a limit keeps that many of what the loop gives without one, and at least one |
| Notes.PermittedExactly | open-webui/backend/open_webui/models/notes.py:152-167 | a note is permitted to its owner, for reading to everyone without access control, and else to the listed users and groups |
| Notes.PagesTile | open-webui/backend/open_webui/models/notes.py:170-179 | consecutive pages give the permitted notes without gap or repeat |

## Left out

- Tasks.TaskRegistry.StopTask: does not model the await after the cancellation, nor tasks that refuse it; cancelling is the removal from `tasks`. With Redis a stop is a broadcast to listeners, which look the task up and cancel it without unregistering it.
- FolderStore.FolderTable.DeleteChildren: takes the interpreter's recursion limit as a number of open calls of the recursion, any number; frames of library code are not counted.
- Rerank.CompressDocuments: the Document class is not part of this model; building one is taken to copy the metadata it is given, as a validated dict field does.
- Hybrid.HybridSearch: what fetching a collection gives and what a query retrieves from it, with its scores, are parameters.
- ConfigDoc.GetSet: the document is a value; sharing of list and dict objects between a setting and the document is not captured, and the in-place walk of save is a recursion.
- ConfigReads.ReadsLatest: stored and published values survive JSON encoding unchanged.
- Hybrid.HybridThreshold: the reranker returns scores; a reranking function that returns none is modelled in CompressDocuments only.
- AudioSplit.EstimateExactly: the estimate is computed over the reals, without the rounding of floating point.
- Names.NormalizeIdempotent: letters and white space are ASCII; other characters are their own lower case and never separate words.
- Groups.GroupTable.SyncGroups: membership is exact, where the source searches the stored list as text; ids contain no quotes or wildcards.
- Groups.GroupTable.CreateGroups: single insertions do not fail.
- Scores are reals, without NaN; text hashes do not collide; fresh ids are new; timestamps are left out.
- User ids never start with "shared-", so a snapshot's owner is never a user.
- The set-typed order of tags after `list(set(...))` and of group listings is arbitrary in the source and not observed here.
- The search endpoint that purges a tag row when a search by tag finds nothing, full-text search, sibling name checks and file lists in folders: they depend on the database dialect or on tables that are not part of this model.
- HTTP routing, permissions beyond the branches named above, sockets, embedding, vector search, BM25, audio encoding, SQLAlchemy and Redis internals: plumbing; their results are parameters.
- Environment variables, migrations, the frontend and the remaining CRUD tables: no property beyond storing what they are given.
