# Verification of WWFSDB

A Dafny model of the database's four components, and proofs of what they keep. `dafny verify dfyconfig.toml` checks all
of it.

- **The index tree** (`Keys`, `Tree`, `TreeShape`, `TreeContents`, `TreeDelete`, `TreeRuns`, `TreePanics`, `Store`,
  `StoreDelete`). The tree functions are written with a `Rule`. `AsWritten` is the code line by line. `Intended` differs
  from it in the three places marked "(rule)": a leaf that is split keeps the promoted key's values on the right, writes
  go right on a separator as reads do, and a leaf repair moves the neighbour's own entry. `Store` and `StoreDelete` run
  the same operations over CIDs in a store that only grows. The tree refines a plain multimap under `Intended`. For
  `AsWritten` the lemmas say exactly which lookups go wrong, and which panic, and when.
- **Paged tables** (`Cells`, `Tables`, `TableRuns`, `TableUpdates`, `TableLaws`, `TableSteps`). INSERT, UPDATE, DELETE,
  CREATE INDEX and CREATE TABLE as loops over pages of at most 100 rows, against a plain list of rows, what the UNIQUE
  indexes guarantee in every run, and exactly when UPDATE keeps it. `TableLaws` says column by column what INSERT and
  UPDATE put into the rows, and which index entries each statement touches.
- **Transactions and write queues** (`Transactions`, `TransactionSafety`, `Signatures`, `Serializability`, `Progress`,
  `Dispatcher`). A system of interleaved steps for any number of calls, sessions and databases, safety over all its runs,
  that data changes by signed writes only, when no finished work is lost, freedom from deadlock, and the dispatcher
  object, whose methods run with the rest of the server taking steps in between and whose history is always such a run.
- **Queries** (`Joins`, `FromClause`, `Identifiers`, `Evaluator`, `QueryLaws`, `Subqueries`, `Correlation`, `QueryForms`,
  `OuterJoins`, `OrderBy`, `GroupKeys`, `Grouping`, `Aggregates`, `ResultLaws`, `Dedup`, `Unions`, `RowKeys`, `Like`). The
  loops of joins, grouping, aggregates, UNION and LIKE against declarative results, an evaluator over a syntax tree that
  terminates by its structure, and the equivalence of query forms. `QueryLaws`, `Correlation`, `OuterJoins` and
  `ResultLaws` say what queries, correlated subqueries, padded rows and results are without naming the functions that
  compute them; `QueryLaws` also has the truth tables of AND, OR, IS NULL, LIKE and the comparisons with NULL.

`Seqs` and `Options` hold what the others share.

Where the code departs from its documentation the model follows the code. The repository's README.md, line 21, speaks of
ACID transactions: neither COMMIT nor a queued write checks that the head is still the one it was computed from, so a
COMMIT can lose a write finished since its BEGIN (`TransactionSafety.CommitLosesAWrite`) and a write can lose a COMMIT made
since it loaded (`Serializability.WorkerLosesACommit`). Nothing is lost while every publication finds the head it was
computed from (`Serializability.FreshRunsLoseNothing`), and no weaker check would do (`Serializability.CommitGuardIsExact`,
`Serializability.WorkerGuardIsExact`). Line 24 says UNIQUE is enforced: UPDATE does not check it
(`TableUpdates.UpdateMayDuplicate`, `TableUpdates.UpdateDropsALiveKey`), and over the tree as written INSERT misses values
that became separators (`TableRuns.AsWrittenAcceptsDuplicates`). A FROM list ignores empty tables
(`FromClause.EmptyTablesAreIgnored`), and inside a subquery the outer row wins over a table of the same name
(`Subqueries.SharedNameHidesTheTable`).

Strings of the program are sequences of bytes. Where only their order and equality matter a string of the model has one
character for each byte; `Like` works on the bytes themselves, because `_` takes one byte.

Parameters stand for what the model does not look into: how values are rendered and cast, how text is read as a number,
the comparison of two values that are not NULL, WHERE and SET expressions of statements, the meaning of a statement and
the validity of its signature in a transaction, and in `Evaluator` star projection, the aggregate path and sorting.

## Model

| member | source | states |
|---|---|---|
| Keys.KeyOfEmbeds | pkg/core/prolly_trees.go:146 | the numbers that stand for string keys are ordered and equal exactly as the strings are, so comparing them is comparing keys |
| ProllyTreeShape.PutKeepsShape | pkg/core/prolly_trees.go:97-117 | any Put, through leaf and node splits and a new root, keeps the tree well formed: one depth for all leaves, 3 to 7 keys outside the root, sorted keys, separators that bound their subtrees, as many value lists as keys and one more child than separators |
| ProllyTreeShape.DeleteKeepsShape | pkg/core/prolly_trees.go:120-136 | any Delete with the leaf repairs as intended, through borrows, merges and root collapse, keeps the same shape |
| ProllyTreeShape.RecPutOk | pkg/core/prolly_trees.go:161-241 | the recursive Put gives a well-formed subtree, or two with a separator between them that bounds both |
| ProllyTreeShape.HandleUnderflowOk | pkg/core/prolly_trees.go:298-327 | repairing a child one key short restores all bounds and sizes whichever neighbour is used |
| ProllyTreeShape.RecDeleteOk | pkg/core/prolly_trees.go:243-296 | the recursive Delete leaves a subtree at most one key short and otherwise well formed |
| ProllyTreeContents.GetReadsVals | pkg/core/prolly_trees.go:140-159 | a lookup in a well-formed tree never runs off a node; it answers the stored list, or nothing where the code as written put the key beside a separator of that name |
| ProllyTreeContents.PutVals | pkg/core/prolly_trees.go:97-117 | what every key holds after Put: the value appended to its own list and no other list touched, except that as written the promoted key of a split leaf loses its list |
| ProllyTreeDelete.DeleteVals | pkg/core/prolly_trees.go:120-136 | what every key holds after Delete, as intended or, as written, when no leaf is repaired: all copies of the value gone from its own list, other lists untouched |
| ProllyTreeDelete.HandleUnderflowVals | pkg/core/prolly_trees.go:298-465 | borrowing and merging, of inner nodes under both rules and of leaves as intended, move values between nodes without losing, adding or reordering any |
| ProllyTreeRuns.IntendedRefinesMultimap | pkg/core/prolly_trees.go:88-296 | after any run of Put and Delete from the empty tree the intended tree answers every key with the list a plain multimap holds |
| ProllyTreeRuns.AsWrittenLosesExactlySeparators | pkg/core/prolly_trees.go:97-117 | for runs of the code as written that repair no leaf, a key answers its whole multimap list if it is no separator of the tree and nothing if it is |
| ProllyTreeRuns.SeparatorsArePromotedKeys | pkg/core/prolly_trees.go:178-201 | the separators of such a tree are exactly the keys that some leaf split of the run moved up |
| ProllyTreeRuns.PutExactness | pkg/core/prolly_trees.go:161-201 | as written, one Put changes every lookup as the multimap says if and only if its key is no separator and its leaf need not be split |
| ProllyTreeRuns.DeleteExactness | pkg/core/prolly_trees.go:298-465 | as written, one Delete changes every lookup as the multimap says if and only if it does not have to repair a leaf |
| ProllyTreeDelete.RepairedLeafAnswersWrong | pkg/core/prolly_trees.go:329-465 | as written, any repair of a leaf makes the separator beside it answer values it never had |
| ProllyTreeRuns.DeletingAbsentKeepsTree | pkg/core/prolly_trees.go:243-296 | deleting a pair that is not stored leaves the tree as it was |
| ProllyTreeRuns.EightPutsLoseTheFifth | pkg/core/prolly_trees.go:178-188 | a run from the empty tree: after seven Puts of different keys in order the fifth key answers, after the eighth it answers nothing as written and its value as intended |
| ProllyTreeRuns.MergedLeafPanics | pkg/core/prolly_trees.go:397-465 | a run from the empty tree: after eight Puts and one Delete, none of which repairs a leaf, the last key answers, and after one more Delete, which merges two leaves as written, reading it panics |
| ProllyTreePanics.InnerRepairReads | pkg/core/prolly_trees.go:298-465 | a repair among inner nodes, whichever it is, changes no lookup at all |
| ProllyTreePanics.MergedLeafReads | pkg/core/prolly_trees.go:397-465 | in a leaf merged as written reading the last key panics, and reading any other does not |
| ProllyTreePanics.DeletePanicsExactly | pkg/core/prolly_trees.go:120-159 | as written, from any tree in order: after one Delete a lookup panics if and only if the Delete had to merge two leaves and the key is the last of the merged leaf and no separator of the tree |
| ProllyTreePanics.SomeLookupPanics | pkg/core/prolly_trees.go:120-159 | so some lookup panics if and only if the Delete merges two leaves into one that ends in a key that is no separator |
| Store.TreesArePersistent | pkg/core/prolly_trees.go:52-59 | as the store grows every CID keeps denoting the same tree, so every older root answers every lookup as before |
| Store.OneCidPerTree | pkg/core/prolly_trees.go:268-270 | two CIDs that denote the same tree are the same CID, so comparing CIDs in Delete is comparing subtrees |
| Store.Shell.Add | pkg/core/prolly_trees.go:52-59 | saving a node adds at most one object, changes none, and gives an equal node its old CID |
| Store.Shell.Cat | pkg/core/prolly_trees.go:31-49 | loading returns exactly the stored node, or nothing for an unknown CID |
| Store.RecursiveGet | pkg/core/prolly_trees.go:140-159 | the lookup over CIDs terminates and computes the lookup on the tree the CID denotes |
| Store.GetValues | pkg/core/prolly_trees.go:88-93 | a lookup from a root CID, or from none, is the lookup on the tree, or empty |
| Store.RecursivePut | pkg/core/prolly_trees.go:161-241 | Put over CIDs, saving as it goes, returns CIDs that denote what the recursive Put gives as its callers see it, a promoted empty string counting as no split; for any stored tree in shape, well formed or not |
| Store.PromotedIsNotEmpty | pkg/core/prolly_trees.go:104 | in a well-formed tree no promoted key is the empty string |
| Store.SeenIsPut | pkg/core/prolly_trees.go:224-240 | so in a well-formed tree no split is overlooked: what the callers see is the recursive Put itself |
| Store.PutInLeaf | pkg/core/prolly_trees.go:169-204 | the leaf branch of Put on stored nodes |
| Store.PutBelow | pkg/core/prolly_trees.go:207-240 | the inner branch of Put on stored nodes |
| Store.SplitNode | pkg/core/prolly_trees.go:178-200 | both halves of a node that is split are saved and denote the halves of its tree |
| Store.PutValue | pkg/core/prolly_trees.go:97-117 | a whole Put takes a root CID to a root CID that denotes the Put of the denoted tree, as its code sees it |
| Store.PutRootIsPut | pkg/core/prolly_trees.go:97-117 | and in a well-formed tree that is Put |
| StoreDelete.RecursiveDelete | pkg/core/prolly_trees.go:243-296 | Delete over CIDs terminates and returns a CID that denotes the Delete of the denoted tree |
| StoreDelete.DeleteBelow | pkg/core/prolly_trees.go:273-295 | the inner branch of Delete, which returns the old CID exactly when the child CID is unchanged |
| StoreDelete.RepairChild | pkg/core/prolly_trees.go:298-327 | the repair picks the neighbour the code picks and saves what that repair gives |
| StoreDelete.BorrowFromLeft | pkg/core/prolly_trees.go:329-361 | moves one key and value or child from the left neighbour and saves all three nodes |
| StoreDelete.BorrowFromRight | pkg/core/prolly_trees.go:363-395 | moves one key and value or child from the right neighbour and saves all three nodes |
| StoreDelete.MergeNeighbours | pkg/core/prolly_trees.go:397-465 | both merges: two neighbours become one node and their separator goes |
| StoreDelete.Filter | pkg/core/prolly_trees.go:253-258 | the loop keeps exactly the values different from the deleted one, in order |
| StoreDelete.DeleteValue | pkg/core/prolly_trees.go:120-136 | a whole Delete, root collapse included, takes a root CID to one that denotes the Delete of the denoted tree |
| TableSteps.PageShell.AddPage | pkg/core/database.go:134-141 | saving a page changes no stored page; equal pages may or may not share a CID |
| TableSteps.RowsArePersistent | pkg/core/row.go:158-171 | every older list of page CIDs keeps its rows as the store grows |
| TableSteps.UpdateIndexesOnInsert | pkg/core/index.go:99-127 | the row is put in every index it has a value for and in no other, in whatever order the indexes are visited |
| TableSteps.UpdateIndexesOnDelete | pkg/core/index.go:130-157 | the row is taken out of every index it has a value for and of no other |
| TableSteps.BuildInsertedRow | pkg/core/row.go:75-137 | the checks of one tuple in the order of its columns: the row, or a failure; `TableLaws.TupleExactly` says when and which row |
| TableSteps.AppendRow | pkg/core/row.go:139-172 | the list of rows gains the row at its end; pages stay at 1 to 100 rows |
| TableSteps.InsertDB | pkg/core/row.go:41-182 | INSERT appends exactly the new rows, each tuple checked against the indexes with the earlier ones in, or fails on the first bad tuple with the old table still standing; `TableLaws.InsertMeans` says what the new rows hold |
| TableSteps.DeleteInPage | pkg/core/row.go:367-390 | one page under DELETE: kept rows, count and indexes, or the failure of the condition |
| TableSteps.DeleteDB | pkg/core/row.go:340-418 | DELETE keeps exactly the rows the condition does not select, counts the others, keeps pages at 1 to 100 rows, drops empty pages, and succeeds exactly when the condition fails on no row |
| TableSteps.ApplySets | pkg/core/row.go:256-272 | the SET clauses apply in order, each seeing the row as the earlier ones left it; `TableLaws.SetExactly` says which row that gives |
| TableSteps.UpdateInPage | pkg/core/row.go:240-287 | one page under UPDATE: rows, count and indexes, or a failure |
| TableSteps.UpdateDB | pkg/core/row.go:213-309 | UPDATE maps the selected rows in place, counts them, leaves untouched pages under their CIDs, and succeeds exactly when every row does; `TableLaws.UpdateMeans` says what a selected row becomes |
| TableSteps.SavePage | pkg/core/row.go:392-403 | a page without changes keeps its CID, a changed one is saved anew, an emptied one disappears |
| TableSteps.CreateIndexDB | pkg/core/index.go:23-97 | a new index is built from all rows of all pages, unless the column has one or does not exist |
| TableSteps.BuiltIndexAnswers | pkg/core/index.go:60-83 | a new index answers each key with the page CIDs of the rows that have it, once per row, in row order |
| TableSteps.MigrateDB | pkg/core/table.go:42-86 | CREATE TABLE gives an empty table with an empty index for every UNIQUE column and fails exactly when two UNIQUE columns share a name |
| Tables.UpdateMapsRows | pkg/core/row.go:240-287 | UPDATE is defined exactly when it is on every row, and then maps row by row, keeping order and number |
| Tables.DeleteFilters | pkg/core/row.go:367-390 | the kept rows are the unselected ones in their old order |
| Tables.DeleteCounts | pkg/core/row.go:381 | kept rows and counted rows add up to all rows |
| Tables.DeleteSucceeds | pkg/core/row.go:369-378 | DELETE succeeds exactly when its condition evaluates on every row |
| TableRuns.BuiltRowIsNew | pkg/core/row.go:114-134 | a row that passes the checks has, in every UNIQUE column, a value no index entry has |
| TableRuns.DuplicateIsRejected | pkg/core/row.go:127-133 | a value some row already has is rejected in a UNIQUE column |
| TableRuns.InsertKeepsGuard | pkg/core/row.go:74-173 | INSERT, also of many rows, keeps every live UNIQUE value a key of its index and all such values distinct |
| TableRuns.DeleteKeepsGuard | pkg/core/row.go:380-386 | DELETE keeps the same, although stale keys may stay behind |
| TableRuns.StaleKeys | pkg/core/row.go:158-171 | a deleted row's key leaves the index if and only if every entry under it names the CID its page has at that moment; entries made when the page was an older one survive |
| TableRuns.UpdateKeepsGuard | pkg/core/row.go:277-285 | UPDATE that assigns no UNIQUE column keeps the same; `TableUpdates.UpdateKeepsGuardExactly` covers the others |
| TableRuns.UniqueInEveryRun | pkg/core/row.go:41-418 | in every state of every run of INSERT, DELETE and UPDATEs that assign no UNIQUE column, no two rows share a UNIQUE value and each such value is a key of its index |
| TableRuns.AsWrittenAcceptsDuplicates | pkg/core/row.go:127-133 | over the index tree as written, a value that became a separator is not found by the check, so it is accepted again |
| TableUpdates.ChangeEntriesMember | pkg/core/row.go:277-285 | which pairs of key and page CID an index has after an UPDATE: the old ones that no changed row removes, and those a changed row adds and no later one removes |
| TableUpdates.ChangeEntriesLiveExactly | pkg/core/row.go:277-285 | so a key is live after an UPDATE if and only if an old entry outlives all removals or a new one all later removals, which can be read off before anything is written |
| TableUpdates.UpdateKeepsGuardExactly | pkg/core/row.go:213-309 | a successful UPDATE of any columns keeps every UNIQUE value indexed and distinct if and only if the rows it makes share no UNIQUE value, have no NULL there, and none of their keys loses its last entry |
| TableUpdates.UniqueWhileUpdatesAreSafe | pkg/core/row.go:41-418 | over any run of INSERT, UPDATE and DELETE the guarantee holds in every state if and only if every UPDATE met that condition where it ran |
| TableUpdates.UpdateMayDuplicate | pkg/core/row.go:256-272 | a run in which UPDATE sets a UNIQUE column to a constant, so that two rows share a value |
| TableUpdates.UpdateDropsALiveKey | pkg/core/row.go:277-285 | a run in which UPDATE u = u + 1 over two rows of one page leaves different values but drops the entry of one, and a later INSERT of that value is accepted; what the arithmetic gives need only be rendered like the value, as a float is |
| TableUpdates.StaleKeyRefuses | pkg/core/row.go:158-171 | a run in which a value of a deleted row is refused although no row has it |
| TableLaws.SetExactly | pkg/core/row.go:256-272 | SET gives a row if and only if its clauses lead to it in turn: through rows that differ in one column each, by the value the clause has on the row before it, which must not be NULL |
| TableLaws.LastClauseDecides | pkg/core/row.go:256-272 | the last clause that assigns a column decides its value, on the row as the clauses before it left it |
| TableLaws.OthersKeepTheirs | pkg/core/row.go:256-272 | a column no clause assigns keeps its value |
| TableLaws.TwoClauses | pkg/core/row.go:256-272 | SET a = f, b = g assigns both, and g reads the new a |
| TableLaws.UpdateMeans | pkg/core/row.go:240-287 | UPDATE makes of each selected row what the clauses lead to in turn, and leaves every other row as it was, each in its place |
| TableLaws.ValueExactly | pkg/core/row.go:91-134 | a value is accepted if and only if its column exists, it is a literal that casts to the column's type or NULL, not NULL where the column is NOT NULL or UNIQUE, and not answered by the index where it is UNIQUE; then it is that cast value or NULL |
| TableLaws.TupleExactly | pkg/core/row.go:75-137 | a tuple gives a row if and only if it has a value for every name and each is accepted; the row then has exactly the named columns, each with the value listed last for it, and no NULL in a NOT NULL column |
| TableLaws.InsertExactly | pkg/core/row.go:74-173 | INSERT of one more tuple succeeds if and only if it did so far and the indexes with the earlier rows accept the tuple |
| TableLaws.NamesFill | pkg/core/row.go:64-73 | the columns are those the statement names and, if it names none, those of the schema in its order, so that value i goes to column i |
| TableLaws.InsertMeans | pkg/core/row.go:41-182 | a successful INSERT keeps every row and appends, for each tuple in order, the row the tuple lists |
| TableLaws.DeletedAre | pkg/core/row.go:380-386 | DELETE takes exactly the entries of the selected rows out of the indexes, in order |
| TableLaws.EntriesLeft | pkg/core/row.go:380-386 | after that an index has exactly the pairs of key and page CID it had, but for those of the deleted rows |
| TableLaws.ChangedAre | pkg/core/row.go:277-285 | UPDATE changes in the indexes exactly the selected rows, in order, each from its old row to its new one under the CID its page has |
| TransactionSafety.MutualExclusion | pkg/rpc/server.go:104-105 | in every interleaving at most one call works on a session content at a time |
| TransactionSafety.ContentIsFold | pkg/rpc/server.go:130-162 | in every reachable state the content of a session is the head its BEGIN loaded, with its finished statements applied in order |
| TransactionSafety.CommitPublishesFold | pkg/rpc/server.go:93-117 | COMMIT makes the head the BEGIN snapshot folded with exactly the statements whose locked section came before it |
| TransactionSafety.RepliesFollowTheFold | pkg/rpc/server.go:130-162 | in every interleaving the reply a statement gets is that of running it on the BEGIN snapshot after the earlier statements of its session |
| TransactionSafety.PublishedOnce | pkg/rpc/server.go:93-102 | no session publishes twice |
| TransactionSafety.DroppedPublishesNothing | pkg/rpc/server.go:107-128 | a session rolled back or cleaned up, or whose COMMIT could not save it, never publishes, before or after |
| TransactionSafety.NothingBeforeBegin | pkg/rpc/server.go:68-91 | nothing happens to a session before its BEGIN |
| TransactionSafety.OnlyCommitsAndWorkersMoveTheHead | pkg/rpc/server.go:93-202 | a head moves only when a session of that database publishes or its own worker finishes a write |
| TransactionSafety.QueueIsFirstInFirstOut | pkg/rpc/server.go:178-202 | jobs finish in queue order and none is lost: queued jobs are those finished, then the one in hand, then those waiting |
| TransactionSafety.HeadIsFoldOfJobs | pkg/core/database.go:145-202 | without a COMMIT on it, the head of a database is the fold of the successful writes its worker has finished, whatever other databases do |
| TransactionSafety.JobsRunOnLoadedHeads | pkg/core/database.go:145-202 | in every interleaving a finished job answers as it does on the head its worker loaded last, and a write that succeeds there becomes the head whatever happened to the head since; a job for an unknown database fails |
| TransactionSafety.SessionEqualsAutoCommit | pkg/core/database.go:167-201 | the statements of a session give the content and the replies that running them one by one with auto-commit gives |
| TransactionSafety.CommitIsSerialExactly | pkg/rpc/server.go:93-117 | a COMMIT that finds the head its BEGIN loaded has the effect of running its statements one by one at that moment; if it finds another, that is so only when the statements make the same of both heads. The guard that works for all statements is `Serializability.CommitGuardIsExact` |
| TransactionSafety.CommitLosesAWrite | pkg/rpc/server.go:93-117 | a run in which a write finished between BEGIN and COMMIT is lost, since COMMIT checks for no conflict |
| Signatures.StoredStatementDoes | pkg/rpc/server.go:144-161 | in every run the step that ends a statement does to the session's content what the statement itself says: a query nothing, with its own answer; a write signed by the owner on that content its own content and reply, if it succeeds; any other write nothing and no reply. No head and no other session changes |
| Signatures.SessionReplyDoes | pkg/rpc/server.go:130-162 | so the reply of which `RepliesFollowTheFold` speaks is that of the statement on the content it ran on |
| Signatures.UnsignedStatementIsRefused | pkg/core/database.go:173-179 | an unsigned write in a session gets no reply and leaves the content and every head as they were |
| Signatures.ContentChangesAreSigned | pkg/core/database.go:167-201 | a session's content changes only as a signed write of that session ends, to exactly what the write makes of it |
| Signatures.FinishedJobDoes | pkg/core/database.go:145-202 | a finished job does what the statement says on the head its worker loaded; its content becomes the head exactly if it is a signed write that succeeds; no session changes |
| Signatures.UnsignedJobIsRefused | pkg/core/database.go:173-179 | an unsigned write in the queue gets no reply and leaves heads and sessions as they were |
| Signatures.HeadChangesAreSigned | pkg/core/database.go:145-202 | a head changes only as a session publishes the content it has, or as a worker finishes a signed write, to exactly what the write makes of the content it loaded |
| Signatures.SessionsAreAuthorised | pkg/core/database.go:167-201 | in every reachable state the content of every session was made from a first head of its database by writes each signed on the content it ran on |
| Signatures.HeadsAreAuthorised | pkg/core/database.go:167-201 | and so was every head |
| Serializability.BeginIsUnique | pkg/rpc/server.go:68-91 | a session has one BEGIN: one load and one entry |
| Serializability.FreshRunsLoseNothing | pkg/core/database.go:145-202 | over any run with any number of COMMITs and queued writes: if each finds as head the content it was computed from, the head is always what the first head becomes under the statements of all published sessions and all finished jobs, in the order of publication |
| Serializability.FreshRepliesAreSerial | pkg/rpc/server.go:130-162 | in such a run the statements of a published session also answer as they would in that order |
| Serializability.CommitGuardIsExact | pkg/rpc/server.go:113-116 | no weaker guard will do for COMMIT: what it publishes is right for all statements if and only if the head is still the one BEGIN loaded |
| Serializability.WorkerGuardIsExact | pkg/core/database.go:189-201 | nor for a worker: what it publishes is right for all jobs and meanings of jobs if and only if the head is still the one it loaded |
| Serializability.WorkerLosesACommit | pkg/core/database.go:167-201 | a run in which a COMMIT that found its head is lost to a worker that had loaded earlier and finishes later; the step that misses its guard is the worker's |
| Progress.MutexIsGivenBack | pkg/rpc/server.go:139-162 | from every reachable state in which a session is locked its holder alone can free it in two steps at the most |
| Progress.DispatcherIsGivenBack | pkg/rpc/server.go:68-91 | and the call that holds the dispatcher's mutex can give it back at once |
| Progress.NoDeadlock | pkg/rpc/server.go:68-202 | in every reachable state a call that has begun can go on, or waits for one that can |
| Progress.WorkerGoesOn | pkg/rpc/server.go:178-188 | a worker with a job in hand or waiting can always go on |
| Server.OthersLeaveMe | pkg/rpc/server.go:68-202 | what the steps of others cannot change: where a call is, the job a worker has in hand and the front of its queue |
| Server.Dispatcher.Others | pkg/rpc/server.go:68-202 | any number of steps by others keeps the history of the object a run of the interleaving system |
| Server.Dispatcher.BeginTransaction | pkg/rpc/server.go:68-91 | BEGIN with other calls around it: a session not there before, whose content is the head as it was at the load; or the error for an unknown database |
| Server.Dispatcher.ExecuteInTransaction | pkg/rpc/server.go:130-162 | a statement with other calls between all its steps: it stores its result last, and its reply is that of the statement on the head BEGIN loaded after the earlier statements of the session, and content and reply are what the statement itself does (`Signatures.Does`: an unsigned write has no reply and changes nothing); or there is no such session and nothing was done |
| Server.Dispatcher.Answered | pkg/rpc/server.go:130-162 | what storing the result of a statement means for reply and content, in the history of the object |
| Server.Dispatcher.CommitTransaction | pkg/rpc/server.go:93-117 | COMMIT with other calls between all its steps: the last one makes the head the BEGIN snapshot folded with exactly the statements that came before, leaves other heads alone, and is the only publication of the session; or saving fails and the session is gone without a publication; or there is no such session |
| Server.Dispatcher.PublishedNow | pkg/rpc/server.go:113-116 | what publishing means for the head, in the history of the object |
| Server.Dispatcher.RollbackTransaction | pkg/rpc/server.go:119-128 | ROLLBACK with other calls around it: the session is gone and has published nothing, and by DroppedPublishesNothing never will; or there is no such session |
| Server.Dispatcher.CleanupStaleTransactions | pkg/rpc/server.go:164-175 | a round of the clean-up, from the state in which it gets the mutex: steps that are all Cleanup steps of stale live sessions, after which exactly those are gone and nothing else has changed, and none of them ever publishes |
| Server.Dispatcher.Dispatch | pkg/rpc/server.go:191-202 | a job into the queue: it joins the end of the queue, and all jobs ever queued are those finished, in hand and waiting, in order; the call waits when the mutex is taken or the queue full, and the send needs no mutex |
| Server.Dispatcher.RunJob | pkg/rpc/server.go:178-188 | a round of the worker: takes the oldest job, loads the head, runs the job and publishes a successful write, with other goroutines in between; the reply and the new head are those of the job on the loaded head, which for an unsigned write is no reply and the old head, and the queue stays first in, first out |
| Joins.ExecuteJoin | pkg/core/query.go:1720-1833 | the nested loops with their matched sets, and the padding loops, compute the declared rows, or the first failure of the condition in loop order |
| Joins.JoinRow | pkg/core/query.go:1726-1756 | one left row against all right rows |
| Joins.JoinIsExact | pkg/core/query.go:1720-1833 | an outer join holds each matching pair, each unmatched left row that is kept and each unmatched right row that is kept, exactly once and in that order |
| Joins.FlippedJoin | pkg/core/query.go:1779-1797 | over tables with different names, exchanging the sides and LEFT with RIGHT permutes the rows |
| FromClause.CrossProduct | pkg/core/query.go:1567-1589 | the loop computes the product, with the shortcut for an empty side |
| FromClause.Filter | pkg/core/query.go:164-178 | WHERE keeps the rows the condition holds of in order, or stops at the first failure |
| FromClause.ExecuteFrom | pkg/core/query.go:1517-1564 | the fold over the FROM list |
| FromClause.OnIsWhere | pkg/core/query.go:1724-1757 | filtering the true product is the inner join, order and failures included |
| FromClause.JoinOnVersusWhere | pkg/core/query.go:1567-1573 | with the shortcut the two agree if and only if both sides have rows, or neither has, or no row of the only side with rows passes or fails the condition |
| FromClause.EmptyTablesAreIgnored | pkg/core/query.go:1567-1573 | a FROM list gives the product of those tables that have rows |
| FromClause.FromIsProduct | pkg/core/query.go:1517-1589 | a FROM list gives the product SQL means if and only if none of its tables is empty or all are |
| Identifiers.EvaluateIdentifier | pkg/core/query.go:2667-2728 | the search through schemas and rows finds the one table the name means, or says unknown or ambiguous; the specification sees the FROM tables as a bag, so their order cannot matter |
| Identifiers.SearchSchemas | pkg/core/query.go:2672-2694 | the schema loop counts the hits and remembers the first |
| Identifiers.OneHit | pkg/core/query.go:2672-2694 | one hit means a sole owner, and conversely |
| QueryLaws.WhereKeeps | pkg/core/query.go:164-178 | WHERE fails exactly when its condition fails on some row, and otherwise keeps exactly the rows it holds of, in order, also in a subquery beside the outer row |
| QueryLaws.ResultRowIs | pkg/core/query.go:1876-1908 | without stars a row is projected exactly when every item has a value; the result has exactly the items' names, each with the value of the last item of that name |
| QueryLaws.SelectMeans | pkg/core/query.go:144-205 | a query that only selects shows its items of exactly the rows WHERE keeps of what FROM gives, in order, and fails exactly when a condition or an item of a kept row does |
| QueryLaws.PageMeans | pkg/core/query.go:181-205 | with ORDER BY and LIMIT it shows the sorted rows from the offset on, as many as asked for or as there are |
| QueryLaws.AggregatePageMeans | pkg/core/query.go:181-190 | an aggregate query sorts its results and then takes the page |
| QueryLaws.SubqueryPageMeans | pkg/core/query.go:2533-2539 | and so does a subquery, after projecting all its rows |
| QueryLaws.DerivedMeans | pkg/core/query.go:1538-1547 | SELECT a.c FROM (q) AS a shows column c of every result of q, in order, when all values can be stored |
| QueryLaws.DerivedFails | pkg/core/query.go:1538-1547 | and fails when one of them is NULL or a COUNT |
| QueryLaws.AliasColumn | pkg/core/query.go:2642-2664 | a table with an alias answers for its columns under its own name too |
| QueryLaws.UnknownTable | pkg/core/query.go:1990-2000 | a column of a table that is not in scope is an error, which a comparison takes for a NULL |
| QueryLaws.Connectives | pkg/core/query.go:1948-1974 | when AND and OR are true and when they are false, with a failing second operand harmless exactly when the first decides |
| QueryLaws.NullTests | pkg/core/query.go:1976-1988 | IS NULL and IS NOT NULL are opposite, and never fail on a value |
| QueryLaws.LikeTests | pkg/core/query.go:2089-2115 | LIKE and NOT LIKE are opposite of two values, and both false beside a NULL |
| QueryLaws.ListMembership | pkg/core/query.go:2024-2087 | IN a list holds of a value exactly when some item is the same, NOT IN exactly when none is, and neither of NULL |
| QueryLaws.SubqueryMembership | pkg/core/query.go:2002-2072 | the same of a subquery of one column |
| QueryLaws.SubqueryValue | pkg/core/query.go:2345-2363 | a subquery as a value: NULL of no row, its value of one row, a failure of several |
| QueryLaws.ArithmeticIs | pkg/core/query.go:2407-2450 | arithmetic is that of the numbers the operands stand for, numeric text included; division by zero fails |
| QueryLaws.ArithmeticFails | pkg/core/query.go:2430-2435 | an operand that stands for no number is an error |
| QueryLaws.NaturalJoinIs | pkg/core/query.go:1647-1672 | a natural join takes exactly the pairs that are equal in every common column |
| QueryLaws.PagesJoin | pkg/core/query.go:279-312 | two pages that follow each other are one longer page |
| QueryForms.JoinOnIsWhere | pkg/core/query.go:144-205 | SELECT ... FROM a JOIN b ON c and SELECT ... FROM a, b WHERE c, aggregates or not, are one query (same rows, same order, same failure) when the tables fit: both have rows, or neither has, or c is false of every row of the only one that has |
| QueryForms.JoinRowsAreFiltered | pkg/core/query.go:1567-1573 | and that is exact: the JOIN keeps the rows that WHERE keeps if and only if the tables fit |
| QueryForms.JoinOnAndWhere | pkg/core/query.go:164-178 | with a further WHERE d on the JOIN and c AND d on the list both give the same results, or both fail, when the tables fit |
| QueryForms.RightJoinIsLeftJoin | pkg/core/query.go:1683-1833 | a RIGHT JOIN b ON c has the rows of b LEFT JOIN a ON c, each as often, for any nest of joins with different names; `OuterJoins.JoinMeans` says what those rows are |
| QueryForms.FlippedSchemas | pkg/core/query.go:131-139 | the schemas in scope do not depend on which side is which |
| QueryForms.SourceRowsWithin | pkg/core/query.go:1517-1833 | the rows of a FROM item carry only names it brings into scope |
| QueryForms.NaturalJoinIsOn | pkg/core/query.go:1647-1672 | a join without ON over tables with common columns is the join ON the equality of all of them |
| OuterJoins.JoinMeans | pkg/core/query.go:1683-1833 | the rows of a JOIN b ON c, of any kind and over any FROM items with different names: each pair that meets c with both its rows, each unmatched row that is kept with its own tables as they are and every stored table of the other side present with exactly its schema's columns, all NULL; each once, in that order, and no others |
| OuterJoins.JoinFails | pkg/core/query.go:1726-1740 | the join fails exactly when its condition fails on some pair |
| OuterJoins.PaddedIsNull | pkg/core/query.go:1674-1681 | so IS NULL holds of every column of a padded table, and IS NOT NULL of none |
| OuterJoins.AntiJoin | pkg/core/query.go:1779-1797 | LEFT JOIN b ON c WHERE b.x IS NULL, where b.x always has a value, keeps exactly the left rows without a partner, in order |
| Subqueries.UncorrelatedIsConstant | pkg/core/query.go:2461-2542 | a subquery without star or aggregate that names no table of the outer query has one result for every outer row; `Correlation.SubqueryMeans` is about those that do name one |
| Subqueries.UncorrelatedIsQuery | pkg/core/query.go:2461-2542 | without ORDER BY that result is the one of the subquery run as a query of its own; with a LIMIT, which a subquery takes after projecting all rows, when it succeeds |
| Subqueries.ExistsKeepsAllOrNone | pkg/core/query.go:1941-1946 | WHERE EXISTS over such a subquery, whatever its ORDER BY and LIMIT, keeps every row or none, as its one result has rows or not |
| Subqueries.SubqueryFrame | pkg/core/query.go:2497-2516 | tables of the outer row the subquery cannot reach do not matter to it, at any depth of nesting |
| Subqueries.SharedNameHidesTheTable | pkg/core/query.go:2503-2507 | a table name used inside and outside: the outer row hides the subquery table and changes its result |
| Subqueries.KeepsOwnRowsExactly | pkg/core/query.go:2503-2507 | beside one outer row every table keeps its own row if and only if the tables they share have the same row in both |
| Subqueries.NamesMustDiffer | pkg/core/query.go:2503-2507 | the outer row leaves every table of the subquery its own row, whatever it holds, if and only if they share no name |
| Correlation.OuterColumn | pkg/core/query.go:2469-2486 | inside a subquery a qualified column of an outer table it refers to has the value it has in the outer row |
| Correlation.SubqueryMeans | pkg/core/query.go:2461-2542 | SELECT o.a FROM o WHERE o.x <op> c.y, for any tables, any data and any comparison: it fails exactly when some row of o cannot be compared with the outer row, and otherwise gives o.a of exactly the rows of o that compare as asked with the outer row's y, in order |
| Correlation.ExistsMeans | pkg/core/query.go:1941-1946 | EXISTS over it holds exactly when some row of o matches the outer row |
| Correlation.SemiJoin | pkg/core/query.go:164-178 | WHERE EXISTS keeps exactly the outer rows with a match, each once and in order |
| Correlation.SemiJoinQuery | pkg/core/query.go:144-205 | SELECT c.id FROM c WHERE EXISTS (SELECT o.a FROM o WHERE o.x <op> c.y) as a whole shows c.id of exactly the rows of c with a match in o, in the order of c |
| OrderBy.Precedes | pkg/core/query.go:224-264 | the comparator loop decides by the first key that does not tie |
| OrderBy.ResultPrecedes | pkg/core/query.go:315-362 | the second comparator, over result rows with missing columns, is the first one over their key values, so what is said of that one holds of it |
| OrderBy.OrderByIsStrict | pkg/core/query.go:223-265 | over columns each of one kind the comparator is a strict weak order |
| OrderBy.OrderByIsKeyByKey | pkg/core/query.go:223-265 | ORDER BY k1, ..., kn sorts as sorting by kn, then ..., then k1 does |
| OrderBy.NullsAtOneEnd | pkg/core/query.go:229-237 | NULLs of the first key come first, or last when it is descending |
| OrderBy.SortIsStable | pkg/core/query.go:224 | under a strict weak order the sort orders the rows and keeps ties as they were |
| OrderBy.StableSortIsUnique | pkg/core/query.go:224 | and no other permutation of the rows does |
| OrderBy.OrderlyExactly | pkg/core/query.go:239-261 | one column is put in order if and only if no word lies between two numeric texts spelled against their numbers, numbers and words that meet lie on the same side of everything else, and booleans or times meet only values that tie |
| OrderBy.MixedTextCycles | pkg/core/query.go:239-261 | 9, 10 and 1a as text go round in a circle |
| ResultLaws.OrderMeans | pkg/core/query.go:223-265 | ORDER BY over columns each of one kind: of any two rows of the result the earlier is below the later at the first key on which they differ, or above it where that key descends; NULL is below every value, numbers go by size, words by the first byte in which they differ; rows that differ on no key keep their order |
| ResultLaws.KeyIs | pkg/core/query.go:229-261 | so does the comparator of one key |
| GroupKeys.IdentifiedExactly | pkg/core/query.go:702 | a joined key identifies its values if and only if none of them contains a separator or touches one with a pipe |
| GroupKeys.PipesCollide | pkg/core/query.go:702 | two lists of values with one key |
| Grouping.KeyOf | pkg/core/query.go:680-698 | the key loop stops at the first failure or NULL |
| Grouping.KeyFromIs | pkg/core/query.go:680-698 | a row is dropped exactly when a value is NULL and otherwise has every value rendered |
| Grouping.GroupRows | pkg/core/query.go:677-711 | the grouping loop builds exactly the groups of the keys, and fails exactly when some key does |
| Grouping.MembersAre | pkg/core/query.go:704-710 | a group has exactly the rows with its key, in their old order |
| Grouping.GroupIsTuple | pkg/core/query.go:702-710 | two rows share a group exactly when their values render alike, if the values of one keep clear of the separators |
| Grouping.UncleanTuplesMerge | pkg/core/query.go:702 | otherwise other values fall into the same group |
| Grouping.GroupsPartition | pkg/core/query.go:677-711 | the groups, visited in any order, hold each row without NULL key exactly once |
| Grouping.GroupedAggregatesRecombine | pkg/core/query.go:713-915 | SUM of the groups' SUMs, MIN of their MINs and MAX of their MAXs, the groups visited in any order, are those of all rows without a NULL key; groups without a number answer NULL and do not count |
| Grouping.GroupedSelectRecombines | pkg/core/query.go:713-915 | for the numbers the SELECT loop takes from the rows: aggregating what `AggregateInSelect` answers for the groups gives what it answers for all rows without a NULL key |
| Grouping.GroupedCountsAddUp | pkg/core/query.go:820-823 | the groups' COUNTs, visited in any order, add up to the number of rows without a NULL key, with or without a value |
| Aggregates.AggregateInSelect | pkg/core/query.go:561-652 | the loop of SELECT, ungrouped or of one group (lines 824-915 repeat it), computes SUM, AVG, MIN and MAX of the numbers, DISTINCT or not, and fails exactly when a value does not convert |
| Aggregates.AggregateInHaving | pkg/core/query.go:1150-1237 | the loop of HAVING computes the same of the values it can convert |
| Aggregates.CountInSelect | pkg/core/query.go:524-560 | COUNT counts rows; COUNT(DISTINCT c) counts rendered values that are not NULL |
| Aggregates.CountInHaving | pkg/core/query.go:1113-1148 | COUNT in HAVING |
| Aggregates.FetchForSelect | pkg/core/query.go:571-600 | where SELECT takes the value of a row from |
| Aggregates.FetchForHaving | pkg/core/query.go:1160-1187 | where HAVING takes it from |
| Aggregates.LoopsAgree | pkg/core/query.go:523-1237 | SELECT and HAVING take the same values, whatever orders their loops visit the tables of each row in, if and only if every row is settled: all its values convert and the tables that hold one agree |
| Aggregates.AggregatesAgree | pkg/core/query.go:523-1237 | over settled rows SELECT does not fail and its aggregate and its COUNT are those HAVING computes, DISTINCT or not |
| Aggregates.OneTableDecides | pkg/core/query.go:575-592 | when one table of the row has the column, the order in which tables are visited does not matter |
| Aggregates.AverageIsBetween | pkg/core/query.go:633-651 | MIN <= AVG <= MAX |
| Aggregates.DistinctExtremes | pkg/core/query.go:606-614 | DISTINCT leaves no number twice and changes neither MIN nor MAX |
| Aggregates.TotalPermuted | pkg/core/query.go:612-623 | a sum does not depend on the order of the rows |
| Aggregates.AggregatePermuted | pkg/core/query.go:561-652 | no aggregate depends on the order of the rows |
| Aggregates.GroupsRecombine | pkg/core/query.go:824-915 | the aggregate of the answers of groups is the aggregate of all their rows, for SUM, MIN and MAX and groups with or without numbers |
| ResultLaws.AggregatesAre | pkg/core/query.go:616-651 | SUM is the last of the partial sums, MIN and MAX are members of the list that no other is below or above, and every aggregate over no number is NULL |
| ResultLaws.AverageIs | pkg/core/query.go:633-641 | AVG times the number of numbers is their sum |
| ResultLaws.AverageIsWithin | pkg/core/query.go:633-651 | the AVG of the answer lies between the extremes |
| ResultLaws.NumbersTaken | pkg/core/query.go:561-614 | the numbers aggregated are those of exactly the rows whose value stands for one, in order |
| ResultLaws.CountsAre | pkg/core/query.go:524-560 | COUNT is the number of rows, COUNT(DISTINCT c) the number of different texts that values other than NULL are shown as |
| ResultLaws.FetchIs | pkg/core/query.go:571-600 | the value of a row is that of the first table with one, a failure in SELECT where a value before it does not convert, and that of the column name where no table has one |
| Unions.ExecuteUnion | pkg/core/query.go:1411-1491 | the recursive loop computes the declared result of the tree, with the column check between first rows, ORDER BY and LIMIT |
| Unions.AppendNew | pkg/core/query.go:1459-1473 | one operand of a plain UNION: its rows not seen before, in order |
| Unions.PlainUnionIsKeep | pkg/core/query.go:1452-1491 | a plain UNION over any nest of UNION and UNION ALL is the first-occurrence de-duplication of all rows of all SELECTs, left to right, and then its ORDER BY and LIMIT |
| Unions.FailsOnlyWithASelect | pkg/core/query.go:1443-1450 | over rows of one width a union fails exactly when one of its SELECTs does |
| Unions.NestIsFlattened | pkg/core/query.go:1411-1491 | in a nest of unions each UNION gives the rows of all its SELECTs without repetition, and UNION ALL around it adds rows as they are |
| Unions.UnionAllIsLeaves | pkg/core/query.go:1474-1478 | UNION ALL alone gives every row of every SELECT as often as they give it, left to right |
| Unions.UnionAllAddsUp | pkg/core/query.go:1474-1478 | at the top of any nest UNION ALL has each row as often as its two operands together |
| Unions.UnionHasNoTwins | pkg/core/query.go:1456-1473 | a plain UNION has no two rows with one key, no row of its own, and a row for the key of every row of its SELECTs |
| ResultLaws.UnionPageMeans | pkg/core/query.go:1480-1488 | a union with ORDER BY and LIMIT sorts the rows it has without them and then takes the page |
| RowKeys.GetColumnNames | pkg/core/query.go:1494-1501 | the names of a row, each once, in string order |
| RowKeys.RowToString | pkg/core/query.go:1504-1516 | the key of a row: its values in the order of the sorted names, NULL as the word NULL, joined |
| RowKeys.SameKeyExactly | pkg/core/query.go:1504-1516 | two rows of one width share a key exactly when they show the same values column by column, if the values of one keep clear of the separators |
| RowKeys.ToldExactly | pkg/core/query.go:1504-1516 | a row is told from all rows of its width that show other values if and only if none of its values reaches into a separator |
| RowKeys.ShowingHides | pkg/core/query.go:1504-1516 | what the key never tells: the names of the columns, NULL from the text NULL, a value from its text |
| RowKeys.UnionShowsEveryRow | pkg/core/query.go:1452-1478 | so for every row of every SELECT a plain UNION has that row or one that shows the same values |
| Like.MatchLikeHelper | pkg/core/query.go:2285-2313 | the backtracking loop from a position accepts exactly the rest of the value that is in the language of the rest of the pattern |
| Like.MatchLikePattern | pkg/core/query.go:2281-2283 | LIKE accepts exactly the values that can be cut into one segment per byte of the pattern, any text for %, one byte for _, itself otherwise |
| Like.BlanksCountBytes | pkg/core/query.go:2298-2303 | a pattern of underscores counts bytes: it accepts exactly the values of that many bytes |
| Like.BlanksCountAscii | pkg/core/query.go:2298-2303 | so one underscore per character accepts a text in UTF-8 if and only if it is all ASCII |

## Left out

- The IPFS and IPNS transport, protobuf bytes, LevelDB files and asynchronous publishing: the store is a growing log, the head one variable per database.
- The index tree's CIDs: a node gets its old CID when it is saved again. For pages this is left open.
- The SQL parser: statements and expressions start as syntax trees or functions.
- Signatures and keys: whether a write is signed is a predicate of the content, the database and the text.
- Floating point: numbers are reals. NaN, infinities, date parsing and the text of numbers are not modelled.
- Tables use the index tree under `Intended`; over the tree as written `TableRuns.AsWrittenAcceptsDuplicates` shows what changes.
- Identifiers.EvaluateIdentifier: values that do not convert are left out, because a stored value was written by the matching conversion and always converts, and so are table names that contain the word column, because the code tells its errors apart by their text.
- Store.RecursivePut: leaves out leaves that lost a value list in a merge as written, because the Go code then slices the value lists beyond their length, and whether that panics depends on the capacity of the slice; reading them is covered.
- Store.PutBelow: the same leaves, for the same reason.
- Store.PutValue: the same leaves, for the same reason.
- StoreDelete.RecursiveDelete: the same leaves, for the same reason.
- StoreDelete.DeleteBelow: the same leaves, for the same reason.
- StoreDelete.DeleteValue: the same leaves, for the same reason.
- Server.Dispatcher.ExecuteInTransaction: a call that finds a mutex taken gives up as waiting, where the code blocks until it can go on. `Progress` shows that what it waits for can always happen; that the scheduler lets it happen is not part of the model. The same holds of the other calls.
- Subqueries.UncorrelatedIsConstant: leaves out stars and aggregates, because both look at every table of the merged row.
- QueryForms.JoinOnIsWhere: leaves out derived tables as direct operands of the join, which the code refuses; the aggregate path is a parameter that sees the kept rows, and HAVING is not part of a query block here.
- OrderBy.OrderByIsKeyByKey: the library sort is modelled by its contract; it is the only stable sort there is by `OrderBy.StableSortIsUnique`.
- Schemas are told apart by table, alias and columns, where the code compares pointers: the difference shows only when a subquery and its outer query use one table under one alias.
- A value list as an operand outside IN, CASE and arithmetic over aggregates, and HAVING's boolean structure.
- Failures of the store and the network, other than that of saving a session in COMMIT.
- The order of GROUP BY results, which the code takes from map iteration.
- Routing in pkg/rpc/service.go, a case distinction whose branches are the entry steps of the interleaving system; CREATE DATABASE, forking, and resolving a head that is not cached.
- Session ids are fresh by assumption; the time limits of the cleanup are a free choice of sessions.
- ALTER TABLE and CREATE INDEX statements, which are stubs; DROP and RENAME, import and export, LIMIT with negative numbers, the command line and the clients.
