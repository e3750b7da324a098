# Verified model of the org-scoped tables, the limiter, the password strings and the expiring maps

A Dafny model of the parts of this service where being right is hard, with proofs of what they are
for. `dafny verify dfyconfig.toml` checks everything.

- **User-defined tables.** `app.tables`, `app.columns`, `app.rows` and the six value tables, with
  keys, CHECKs, cascades, RESTRICT keys and the two row triggers (`Schema`, `Insertion`); the
  statements that change them as one state machine over runs of calls (`Operations`), and as a class
  with one mutable map for each stored table, in which `insert_row` is a loop and a statement that
  raises is rolled back (`Store`). A call carries the choices the database makes for it: the record
  `LIMIT 1` returned, the generated id, the time.
- **Over whole runs.** Every reachable state is sound; calls of other orgs change nothing an org owns
  or reads (`Isolation`, `Deletes`), and change whether its deletes go through exactly by references
  from outside (`Outcomes`); stored cells never change and required values stay (`Persistence`).
- **Readers and searches.** `row_to_json` and `rows_json` (`Readers`), the filtered and paged search
  (`Search`, `Paging`, `Ilike`), label columns and their batched lookups (`Labels`), and the two-pass
  label resolution of the search handler (`SearchHandler`, `SharedCache`).
- **Name normalisation** (`Naming`), on ASCII letters.
- **The token-bucket limiter** over reals (`Limiter`). Calls are taken in lock order; their clock
  readings are arbitrary.
- **PHC strings** for Argon2id: decimal numbers, `$` splitting, unpadded base64 of section 4 of
  RFC 4648 (`Base64`, `Phc`). The key derivation is any function that returns as many bytes as asked.
- **Member search** with three-valued, null-skipping aggregates, and the statements that write user
  names (`Users`).
- **Expiring maps**: the session store and the pending links, as a state machine whose steps are lock
  regions, against a reference that forgets only on delete (`ExpiringMap`).

Casts, output functions and ILIKE are parameters (`Insertion.Dialect`); `Ilike` also defines ILIKE on
ASCII text and shows what the patterns mean. Random ids are fresh values, clocks are parameters.

Behaviour kept as it is written:

- The final required check of `insert_row` does not look at `values_float`, so a table with a required
  float column accepts no row (`RequiredFloatRejectsEveryRow`; the exact effect is `RequiredCheckExactly`).
- A search filter on an unknown, date, float or uuid column keeps every row
  (`UnfilterableFieldKeepsEveryRow`), and several filters are alternatives.
- The metadata keys `id` and `created_at` win over user columns of those names (`ReadBack`).
- A NULL label reads as the text `null` in batches and as the empty string one at a time:
  `OwnLabelExactly` says when a batched label is the one-row one, and `UnlabelledTableShowsNull` that
  the rows of a table without a text or enum column are labelled `null`.
- A uuid column can have a reference table without being an enforced reference. Then the handler's
  shared cache can label a cell that its own lookup would not: `CacheAgreesExactly` says when, and
  `CacheCanDisagree` reaches such a page from the empty store.
- A plain uuid cell may hold the id of a row of any org. An insertion by one org can thus keep another
  from deleting its row or table (`OthersChangeADeleteExactly`, `AReferenceFromOutsideHolds`).
- A member with a NULL name passes every filter group about the name only; `KeptDiffersExactly` says
  when that differs from an AND of ORs. The application's own statements never store a NULL name.

## Model

| member | source | states |
|---|---|---|
| Naming.NormaliseIdempotent | database/queries/user_tables.sql:116 | normalising a name twice changes nothing and the result is in lower case |
| Naming.SlugIsStable | database/queries/user_tables.sql:116 | a slug is its own slug, and lowering a name first does not change its slug |
| Naming.ColumnNameIsStable | database/queries/user_tables.sql:161 | a column can be addressed by the name it is stored under |
| Naming.LowerExactly | database/queries/user_tables.sql:116 | lowering maps each capital letter to its small one and changes nothing else |
| Naming.SlugJoinsWords | database/queries/user_tables.sql:116 | a slug is the runs of letters and digits of the lowered name with one `-` between them |
| Naming.ColumnNameJoinsWords | database/queries/user_tables.sql:161 | a column name is the runs of letters, digits and underscores of the lowered name with one `_` between them, without underscores at the ends |
| Naming.KeptExactly | database/queries/user_tables.sql:116-161 | slugs keep `a` to `z` and `0` to `9`, column names also `_` |
| Schema.OneBucketPerCell | database/schema/006_user_tables.up.sql:41-83 | in a sound state no (row, column) pair is stored in two value tables |
| Schema.ResolutionIsUnambiguous | database/queries/user_tables.sql:91-99 | of an org's own tables at most one matches a string by slug or name, so `LIMIT 1` has no choice |
| Schema.SlugOfMatch | database/queries/user_tables.sql:242-249 | a table matches only strings that normalise to its slug |
| Schema.OwnTableIsFound | database/queries/user_tables.sql:221-228 | an org finds its own table by name or slug in any case, before any global table, and only that one |
| Insertion.AcceptedIffNothingRaised | database/schema/012_insert_rows.up.sql:11-98 | an insertion goes through exactly when there is no exception that it may raise |
| Insertion.AcceptedExactly | database/schema/012_insert_rows.up.sql:11-98 | a table takes a payload exactly when every key names a column, NULL comes only where it is allowed, every text casts, enum texts are labels, uuids name rows of an allowed table, and the required columns are among the keys and are no floats |
| Insertion.RefusalExactly | database/schema/008_cross_table_refs.up.sql:8-30 | which exception a value raises in a column, and that no other value raises one |
| Insertion.FailsExactly | database/schema/012_insert_rows.up.sql:11-98 | which exceptions an insertion can raise, and exactly when |
| Insertion.StoredForColumn | database/schema/012_insert_rows.up.sql:39-67 | an accepted key leaves its cast value in the value table of its column's type and in no other |
| Insertion.RequiredColumnsStored | database/schema/012_insert_rows.up.sql:33-95 | every required column holds a non-null value after an accepted insertion |
| Insertion.RequiredCheckExactly | database/schema/012_insert_rows.up.sql:76-95 | with all keys fine, the final check passes iff every required column is among the keys and none is a float |
| Insertion.RequiredFloatRejectsEveryRow | database/schema/012_insert_rows.up.sql:81-91 | a required float column makes a table accept no row |
| Insertion.StoredValueOk | database/schema/008_cross_table_refs.up.sql:8-30 | trigger and foreign key together: a stored enum value is a label, a stored reference names a live row of the right table |
| Insertion.InsertKeepsInv | database/schema/012_insert_rows.up.sql:11-98 | an accepted insertion keeps every constraint of the store |
| Operations.CreateNeverHitsNameIndex | database/schema/020_org_scoping.up.sql:16-19 | creating a table never violates the lower(name) index: a taken name has a taken slug |
| Operations.RecreatingFindsTheTable | database/queries/user_tables.sql:114-129 | creating any name with the same slug again finds the table and changes nothing |
| Operations.CreatedTableIsFound | database/queries/user_tables.sql:114-129 | a new table is stored under exactly the given name and found, alone, by its name and slug in any case |
| Operations.AddColumnExactly | database/queries/user_tables.sql:137-211 | when adding a column fails and with what, and otherwise a column of that name was there or one is added with the type, labels and flags asked for |
| Operations.PicksExactly | database/queries/user_tables.sql:149-157 | an own table is picked first, a global one only without any own, none only without both |
| Operations.StatementsResolve | database/queries/user_tables.sql:213-260 | insertions and column changes fall back to global tables, deletes do not |
| Operations.PruneKeepsInv | database/schema/006_user_tables.up.sql:13-83 | a delete with its cascades that passes the RESTRICT keys leaves nothing dangling |
| Operations.OutcomeKeepsInv | database/queries/user_tables.sql:114-260 | every statement that succeeds keeps every constraint |
| Operations.ReachableStatesAreSound | database/queries/user_tables.sql:114-260 | every state of every run from the empty store is sound |
| Isolation.CallIsolation | database/queries/user_tables.sql:114-260 | a call by anybody else leaves an org's tables, columns, rows and cells as they are |
| Isolation.RunIsolation | database/queries/user_tables.sql:480-551 | the same over any run of such calls |
| Persistence.RequiredForever | database/schema/012_insert_rows.up.sql:33-95 | a column required at insertion stays non-null in that row in every later state, while both exist |
| Persistence.CellsNeverChange | database/schema/006_user_tables.up.sql:41-83 | a stored cell keeps its value and goes exactly when its row or column goes |
| Persistence.ReachableCellsAreSound | database/schema/007_enum_enforcement.up.sql:6-12 | in every reachable state cells name a live row and column of one table, enum cells hold labels, references point where they must |
| Persistence.ReachableRecordsAreSound | database/schema/020_org_scoping.up.sql:16-19 | in every reachable state tables of an org differ in slug and lowered name, columns of a table in name, and every column and row has its table |
| Readers.MergeOrderIrrelevant | database/schema/018_search_tables.up.sql:12-52 | the order in which the value tables are merged does not matter |
| Readers.ReadBack | database/schema/018_search_tables.up.sql:5-64 | after an insertion `row_to_json` returns exactly the supplied keys with their cast values plus `id` and `created_at`, which win |
| Readers.ReadAsEach | database/schema/012_insert_rows.up.sql:31-63 | text, null, bools and canonical dates, numbers and uuids are read back as they were sent |
| Readers.ReadAsCasts | database/schema/012_insert_rows.up.sql:39-63 | each type is read back as its own cast of the text the value unwraps to |
| Readers.InsertKeepsOtherRows | database/schema/012_insert_rows.up.sql:11-98 | an insertion changes no other row's object |
| Readers.ReadersAgree | database/schema/019_rows_json_fix.up.sql:2-38 | apart from the metadata names, `rows_json` is `row_to_json` without the float keys |
| Deletes.ColumnRemovalIsExact | database/queries/user_tables.sql:509-551 | removing a column always succeeds and removes just its key from every row's object, and nothing else |
| Deletes.NothingToRemove | database/queries/user_tables.sql:509-551 | without a table or a column of that name the store stays as it is |
| Deletes.RowDeletionExactly | database/queries/user_tables.sql:480-507 | a row can be deleted iff no other row refers to it |
| Deletes.RowDeletionLeaves | database/queries/user_tables.sql:480-507 | a deleted row goes with its cells and nothing else goes; a row of another table stays |
| Deletes.TableDeletionExactly | database/queries/user_tables.sql:236-260 | a table can be deleted iff no other table's column refers to it and no other table's row refers to its rows |
| Deletes.TableDeletionLeaves | database/schema/006_user_tables.up.sql:13-83 | a deleted table goes with its columns, rows and their cells, and nothing else goes |
| Deletes.DeletionKeepsOtherObjects | database/queries/user_tables.sql:236-260 | after a successful deletion of a table or row every other row is there with the same object |
| Deletes.OthersNeverChangeWhatAnOrgReads | database/queries/user_tables.sql:262-274 | whatever other orgs call, GetRowData answers an org the same |
| Deletes.GetRowDataExactly | database/queries/user_tables.sql:262-274 | an org gets the object of each of its own rows and nothing for any other id |
| Outcomes.DeleteOutcomeExactly | database/queries/user_tables.sql:236-260 | a delete of an org is refused, by a foreign key, exactly when its target is referred to from outside the org or from elsewhere inside it |
| Outcomes.OthersChangeADeleteExactly | database/queries/user_tables.sql:480-507 | after any run of others' calls a delete that would have gone through is refused iff its target is now referred to from outside, and a refused one goes through iff no reference is left |
| Outcomes.OthersNeverChangeWhatADeleteLeaves | database/queries/user_tables.sql:236-260 | when it goes through before and after such a run, it leaves the org the same tables, columns, rows and cells |
| Outcomes.AReferenceFromOutsideHolds | database/schema/008_cross_table_refs.up.sql:8-30 | an accepted insertion outside the org with the id of an org's row in a uuid column makes the org's deletion of that row fail |
| Store.PlaceOneMore | database/schema/012_insert_rows.up.sql:15-74 | one more key of the loop adds one record to the value table of its type |
| Store.Store.InsertRow | database/schema/012_insert_rows.up.sql:1-99 | the loop: succeeds exactly for the payloads the table takes, in any key order, and otherwise changes nothing and reports a raised error |
| Store.Store.RowToJson | database/schema/018_search_tables.up.sql:5-64 | the seven assignments give the merged object, empty for a missing row |
| Store.Store.CreateUserTable | database/queries/user_tables.sql:114-129 | never fails; reports a table of the org with the name's slug, new exactly when that slug was free |
| Store.Store.AddUserTableColumn | database/queries/user_tables.sql:137-211 | adds exactly the asked column unless the name is taken; raises on bad type, missing table and CHECK |
| Store.Store.InsertUserTableRow | database/queries/user_tables.sql:213-234 | resolves, inserts and returns the new row's object |
| Store.Store.DeleteUserTable | database/queries/user_tables.sql:236-260 | one statement with its cascades, or nothing |
| Store.Store.DeleteUserTableRow | database/queries/user_tables.sql:480-507 | the same for a row of the org's own table |
| Store.Store.RemoveUserTableColumn | database/queries/user_tables.sql:509-551 | removes the named column, if there is one, and reports it |
| Paging.PageSize | database/queries/user_tables.sql:17-22 | ten by default, otherwise the request held to 1 to 100 |
| Paging.PageNumber | database/queries/user_tables.sql:19 | zero by default and never negative |
| Paging.PagesTile | database/queries/user_tables.sql:81-83 | consecutive LIMIT/OFFSET pages put together are a prefix of the answer |
| Search.PagesTileTheAnswer | database/queries/user_tables.sql:17-83 | for any filters and page size, up to the int4 offset, the pages give the filtered rows newest first, each once, every hit with the full count |
| Search.SearchFailsExactly | database/queries/user_tables.sql:41-83 | a search fails exactly when its offset is past 2147483647 or a bool filter on a column with a cell has a text that is no boolean |
| Search.UnfilterableFieldKeepsEveryRow | database/queries/user_tables.sql:41-72 | a filter on an unknown, date, float or uuid column keeps every row |
| Search.FilterReadsTheObject | database/queries/user_tables.sql:43-72 | each text, enum and bool filter decides on what the row's object holds under the column's key |
| Search.FiltersAreAlternatives | database/queries/user_tables.sql:35-45 | a row is kept by several filters when it is kept by one of them, and no filters keep all rows |
| Search.OneFilterExactly | database/queries/user_tables.sql:41-72 | one filter keeps every row if no column has its field in any case, and else the rows on whose object it holds under such a column |
| Search.NewestRowComesFirst | database/queries/user_tables.sql:76-83 | the newest row heads the first page, with its object and the table's row count |
| Ilike.IlikeMeans | database/queries/user_tables.sql:50 | with a literal value, the patterns mean prefix, suffix and substring up to ASCII case |
| Ilike.OneCharacterMeans | database/queries/user_tables.sql:50 | `_` stands for exactly one character, and an escaped character for itself |
| Labels.LabelColumnExactly | database/queries/user_tables.sql:344-354 | there is a label column iff there is a text or enum column, and it is the unique first one |
| Labels.LabelColumnMeans | database/queries/user_tables.sql:344-354 | the label column is called `title` if one is, then it is an indexed one if one is, and then it has the smallest id |
| Labels.DistinctOnAgrees | database/queries/user_tables.sql:463-471 | DISTINCT ON over all tables picks that same column for each table that has a text or enum column |
| Labels.TypedAndAutoAgree | database/queries/user_tables.sql:343-410 | GetRowLabel and GetRowLabelAuto agree when the row is in the named table |
| Labels.BatchRowsExactly | database/queries/user_tables.sql:412-446 | the batch query returns the listed rows of the org's table with their one-row labels |
| Labels.BatchRowsAutoExactly | database/queries/user_tables.sql:448-478 | the same for the auto query over all the org's tables |
| Labels.BatchGetRowLabels | internal/repo/user_tables.go:426-442 | for any id list the map holds exactly those rows, each with its one-row label |
| Labels.BatchGetRowLabelsAuto | internal/repo/user_tables.go:444-458 | the same for the auto form |
| SearchHandler.CollectPage | internal/handlers/tables/tables.go:77-94 | the first pass collects exactly the uuids of the page under their reference table or as auto |
| SearchHandler.LookUp | internal/handlers/tables/tables.go:95-105 | in any order of `byTable` the cache holds exactly the rows some lookup finds, with their one-row labels |
| SearchHandler.ResolveRow | internal/handlers/tables/tables.go:114-133 | the second pass replaces exactly the uuid strings under uuid columns |
| SearchHandler.Respond | internal/handlers/tables/tables.go:65-135 | the response has one object for each row of the page and the first row's total |
| SearchHandler.CacheAgreesExactly | internal/handlers/tables/tables.go:96-129 | exactly when the shared cache shows a cell what its own lookup would |
| SharedCache.CacheCanDisagree | internal/handlers/tables/tables.go:77-129 | after eight calls from the empty store a page shows a cell the label `hi` that its own lookup does not find |
| SearchHandler.OwnLabelExactly | internal/repo/user_tables.go:30-46 | a batched lookup shows what the one-row method would unless it finds the row with a NULL label: then `null` instead of nothing |
| SearchHandler.UnlabelledTableShowsNull | internal/repo/user_tables.go:426-458 | a row found in a table without a text or enum column is shown with the label `null` |
| SearchHandler.CellsShownAsLookedUp | internal/handlers/tables/tables.go:65-135 | with enforced references every uuid cell of a page is shown with the label of its own one-row lookup |
| SearchHandler.SchemaIsOfTheSearchedTable | internal/handlers/tables/tables.go:54-64 | the schema and the rows come from the same table, although only the schema lookup falls back to global tables |
| SearchHandler.HandleSearch | internal/handlers/tables/tables.go:54-135 | from the database answer to the response: every key of every row, a uuid under a uuid column's name with the label the page's lookups give it, and with enforced references its own lookup's label; a uuid column named `id` shows the row's id; NULL uuid cells and everything else as the row's object has it; and the full count |
| SearchHandler.LabelIsPartOfTheObject | database/queries/user_tables.sql:378-410 | a row's label is the string its object has under the label column's name |
| Limiter.Configure | internal/middleware/rate_limiter.go:100-108 | the clamped parameters have a positive rate and a capacity of at least one |
| Limiter.Limiter.Allow | internal/middleware/rate_limiter.go:37-55 | the decision and the new bucket are those of the run of all calls so far |
| Limiter.WindowBound | internal/middleware/rate_limiter.go:37-55 | between a call and a later admitted call for a key at most capacity + rate * time are admitted, on any clock |
| Limiter.RejectedExactly | internal/middleware/rate_limiter.go:37-55 | a call is rejected exactly when since some earlier call for its key more than capacity - 1 + rate * time calls have been admitted, on any clock |
| Limiter.BurstIsAdmitted | internal/middleware/rate_limiter.go:42-54 | on a clock that does not go back, calls for a key are admitted as long as no more than capacity have been |
| Limiter.GreedyIsOptimal | internal/middleware/rate_limiter.go:46-54 | no schedule within its own bucket has admitted more in any prefix |
| Limiter.AllowIsGreedy | internal/middleware/rate_limiter.go:46-54 | in any run, with any other keys, the decisions on a key are that greedy schedule of its calls |
| Limiter.LimiterIsOptimal | internal/middleware/rate_limiter.go:37-55 | in any run, no schedule of a key's calls that its bucket can afford has admitted more by any point than the limiter |
| Limiter.RejectedCallIsFree | internal/middleware/rate_limiter.go:46-54 | a rejected call leaves a bucket that refills alike at every time |
| Limiter.ErasingIsInvisible | internal/middleware/rate_limiter.go:41-54 | erasing rejected calls of a key and any calls of other keys changes no remaining decision of that key |
| Limiter.SpacedCallIsAdmitted | internal/middleware/rate_limiter.go:46-54 | a call 1/rate after the last admitted one for its key is admitted, on any clock |
| Limiter.SpacedCallsAreNeverRejected | internal/middleware/rate_limiter.go:41-54 | calls each 1/rate after the one before are never rejected |
| Base64.RoundTrip | internal/auth/local.go:356-357 | decoding undoes encoding for every byte sequence |
| Base64.AlphabetExactly | internal/auth/local.go:356-357 | the 64 characters in order, in both directions |
| Base64.EncodeExactly | internal/auth/local.go:356-357 | the encoding has as many characters as the bits need and is the same big-endian number, with zero bits at the end |
| Base64.DecodesExactly | internal/auth/local.go:373-380 | which texts decode, and to the bytes that are the same number without odd bits |
| Base64.LineEndsAreSkipped | internal/auth/local.go:373-380 | a line end anywhere in the text makes no difference |
| Phc.DecimalDigits | internal/auth/local.go:354-355 | a printed number is digits only and reads as the number |
| Phc.ScanDecimal | internal/auth/local.go:370 | `%d` reads back a printed number and stops after it |
| Phc.ScanSigned | internal/auth/local.go:370 | `%d` reads back a signed number of 64 bits and fails on a longer one |
| Phc.ParamsExactly | internal/auth/local.go:370 | three such numbers are read and what follows them is ignored |
| Phc.SplitAt | internal/auth/local.go:364 | splitting cuts at the first separator |
| Phc.ParseUndoesEncode | internal/auth/local.go:352-382 | the parser returns the printed memory, time, threads, salt and key, for all of them |
| Phc.EncodeExample | internal/auth/local.go:352-359 | the layout of a hash string on one example |
| Phc.ParseExactly | internal/auth/local.go:363-382 | exactly which strings are parsed and as what: six parts, the named algorithm, any version, the low bits of the numbers |
| Phc.HashedExactly | internal/auth/local.go:329-332 | a password is hashed exactly when it has a character that is not white space |
| Phc.VerifyExactly | internal/auth/local.go:329-349 | a hash verifies its own password, and another one iff its derived key is the same |
| Users.OperationsMean | database/queries/users.sql:88-103 | the operations mean substring, prefix, suffix and equality |
| Users.ConditionMeans | database/queries/users.sql:87-138 | `email` compares the address, `name`, `firstname` and `lastname` the name, in any case; other fields are unknown |
| Users.VerdictExactly | database/queries/users.sql:84-138 | when one group's three-valued verdict is false |
| Users.KeptExactly | database/queries/users.sql:82-140 | exactly which members HAVING keeps, NULL names included |
| Users.KeptIsAndOfOrs | database/queries/users.sql:82-140 | with a name, a member is kept iff every group with a recognised field has a true condition |
| Users.KeptMeans | database/queries/users.sql:82-140 | who is kept, in terms of field names, operations and values |
| Users.KeptDiffersExactly | database/queries/users.sql:96-103 | without a name, exactly when that differs |
| Users.RunKeepsSound | database/queries/users.sql:1-6 | over any run addresses stay unique and names non-null |
| Users.UpsertLeaves | database/queries/users.sql:1-6 | a known address keeps its user, whose name changes only from NULL; an unknown one gets a user |
| Users.ProfileLeaves | database/queries/users.sql:153-159 | what is given replaces what the user had, the rest stays, nobody else changes |
| Users.SearchFailsExactly | database/queries/users.sql:149-151 | the search fails exactly when its offset is past 2147483647 |
| Users.UserTable.UpsertUserByVerifiedEmail | database/queries/users.sql:1-6 | one user for each address, whose existing name wins |
| Users.UserTable.UpdateUserProfile | database/queries/users.sql:153-159 | replaces what is given and keeps the rest |
| Users.SearchReturnsTheAndOfOrs | database/queries/users.sql:58-151 | after any run the pages, up to the int4 offset, return exactly the org's members who meet a condition of each group with a known field, each once, with their data and the total |
| ExpiringMap.EveryGetAnswersAsTheReference | internal/session/store.go:26-84 | under any interleaving every Get answers as a store that forgets only on Delete and filters by expiry |
| ExpiringMap.EveryGetAnswersExactly | internal/session/store.go:35-51 | a Get has a result exactly when its lookup found an entry that has no expiry or whose expiry is not over at the answer, and the result is that entry's value |
| ExpiringMap.DeletedStaysDeleted | internal/session/store.go:53-57 | a deleted entry is never there again |
| ExpiringMap.NoLiveEntryIsLost | internal/session/store.go:35-84 | no unexpired, undeleted entry is lost to a sweep or a late Get |
| ExpiringMap.PendingLinkLivesItsTtl | internal/auth/linking.go:30-60 | a pending link can be read until its ttl is over |
| ExpiringMap.PendingLinkExactly | internal/auth/linking.go:30-54 | a pending link is read up to its ttl, ten minutes by default, and not after |
| ExpiringMap.Store.Create | internal/session/store.go:26-32 | stores the entry under its fresh id |
| ExpiringMap.Store.ReadEntry | internal/session/store.go:35-41 | the first lock region of Get |
| ExpiringMap.Store.CheckEntry | internal/session/store.go:42-49 | the rest of Get: the value if the entry has no expiry or it is not over, and else nothing and the entry is deleted |
| ExpiringMap.Store.GetPending | internal/auth/linking.go:42-54 | the same under one lock |
| ExpiringMap.Store.DeleteEntry | internal/session/store.go:53-57 | deletes the entry |
| ExpiringMap.Store.SweepOnce | internal/session/store.go:73-81 | removes exactly the entries whose expiry is over |

## Left out

- HTTP, cookies, JSON decoding, redirects, routing, configuration, logging and OAuth: plumbing around libraries.
- `app.update_row`: nothing calls it, and its casts differ from those of `insert_row`.
- Index creation (`app.ensure_index`): it only changes speed.
- `LookupIndexedRows`, `ListIndexedColumns` and `ListUserTables`: plain selections over what is modelled.
- Unicode lowering: names are lowered on ASCII letters only.
- Renaming of the seeded global tables when a migration runs again: seeding only adds here.
- Gaps in the `bigserial` sequences after conflicts and rollbacks: ids here are consecutive.
- Firing order of CASCADE against RESTRICT for a table or row that refers to itself: the cascades run first here.
- Ties in `created_at`: any order of them is allowed, but one for each state.
- Search.SearchTable: a bool filter whose value does not cast is taken to raise whenever some row of the table has a cell in that column; the database may also stop before it evaluates it. A `values` key that is not an array is not modelled.
- Failed batch lookups in the handler, whose error the code drops: lookups succeed here.
- NULL user names in the result of the member search: the generated scan target cannot hold them, and the application's statements never store them.
- Phc.ScanInt: skips spaces and tabs only, not the other characters `fmt` takes for blanks.
- Argon2, random numbers and UUID text: parameters, with the laws the lemmas name.
- Rounding of `float64` in the limiter, its unused ttl, and the pointers in its bucket map, which never leave it: buckets are values here.
- `Store.List` of the session store and the MFA, role and denylist checks: single-branch code.
