# Private Data Cloud: a verified model of the control plane

Private Data Cloud keeps an organisation's data in several stores at once: the control plane's own
database, the tenant database cluster, and object storage. No transaction spans them. This project models
the service code that keeps them consistent, in Dafny 4.11, and proves what that code promises over every
input, run and crash point, and where requests share rows and objects (uploads and new versions of files)
over every interleaving of their steps. `dafny verify dfyconfig.toml` checks all of it.

Databases are sequences, sets and maps with the uniqueness rules that the schema declares. A call to a
database or to object storage is one atomic step that may fail. SHA-256, HMAC-SHA-1, Argon2id, AES-GCM,
the JSON codec, the database's own comparisons and every fault are parameters; where a theorem needs a law
of one of them (no collisions, a sound cipher, parsing inverts printing), the law is in its `requires`.
Where the source changes things step by step the model has classes and loops. Each such method is proved
equal to a specification function of the old state, and the theorems are about those functions.

| Modules | Subject |
|---|---|
| `Graph`, `TopologicalOrder` | loading tables after the tables they refer to; walks, cycles, pigeonhole |
| `Numerals`, `TextCodec`, `AcceptedForms` | the CSV text form: printing and converting values of every column type |
| `Schema`, `TenantDatabase`, `TenantStatements`, `TenantRestore`, `TenantRoundTrip` | a tenant schema with constraints in force; export, restore, round trip |
| `FileStorage`, `FileHistory`, `FileStatus`, `LostContents`, `StorageService` | uploads, new versions, deletion as interleaved steps over catalog and object storage |
| `CsvImport`, `ImportService`, `ImportHistory` | the resumable import under exceptions and kills |
| `SchemaCatalog`, `SchemaEffects`, `SchemaService` | DDL first, catalog second, compensation on failure |
| `RestoreTransaction`, `RestoreEffects` | nested atomic blocks on two connections, and what a restore leaves behind |
| `FolderStore`, `FolderTree` | the folder table, folder paths, memoised folder creation |
| `PackageArchive`, `PackageIntegrity`, `BucketRoundTrip` | the de-duplicated, checksummed archive; a bucket from one organisation to another |
| `RowQuery`, `RowSearch`, `RowPaging` | WHERE clauses with positional parameters; what a search finds; pages |
| `Authorization`, `Sharing`, `Decisions`, `SharingService` | roles, grants, shares, and what each call does to the decisions |
| `TenantIsolation`, `CallEffects`, `Administrators` | runs of calls: non-interference between organisations; where administrators come from |
| `BigEndian`, `Container`, `Totp` | the package container and one-time codes |

## Where the code and its documentation part

The model follows the code. Each point below is a proved lemma, most of them with the exact condition.

- A cycle of foreign keys does not mean a corrupt package, as the comment in `restorer.py` says. Nullable
  foreign keys let two tables refer to each other with all rows valid, and such an export can never be
  restored (`CyclicReferencesAreRefused`, `MutualReferencesAreValidButRefused`).
- A stored timestamp is exported with its offset, which the import formats do not have: one timestamp
  anywhere makes the whole restore fail (`TimestampBlocksRestore`).
- A table that refers to itself restores exactly if each row refers to itself or to earlier rows
  (`RestoreOfExport`, `ForwardReferenceIsRefused`).
- A foreign key that was checked against a column of a third table may in fact refer to a column of another
  type. Such a database is never restored either (`RestoreOfExport`, `RestoredSchemaIsValid`).
- A foreign key's referenced column may belong to a third table, even of another tenant database. Deleting
  that table or that database then takes the foreign key from the catalog but not from the schema, without
  any failure (`AstrayForeignKeyDrifts`, `AstrayDatabaseDrifts`; `DeletionAgreesUnlessAstray` is the exact
  condition for both deletions).
- In a bucket without versioning, a save based on an outdated row replaces a content that no row will refer
  to again. Its object stays in storage for good exactly if no request in progress had read the row while it
  was current; otherwise that request can still delete it (`OrphanStaysExactly`, `LostForGood`,
  `LostUntilDeleted`).
- An export checks a stored object against its checksum only where that checksum is met first
  (`ExportSucceedsExactly`, `FileComesBackIntact`).
- A restore in which a role passes its check and fails its write returns normally, keeps the tenant data and
  rolls the control plane back, exactly if everything after it is a data row, an oversize file or another
  role (`PackageIsRestoredWholeOrNotAtAll`).
- Folders of one name side by side at the root of a bucket are one folder after a restore, and in every folder
  store that the create call can build only they and what is below them are. If two active files of one name
  meet there, the whole restore fails; otherwise the bucket comes back (`PathsAreSharedUnderTwinRootsOnly`,
  `BucketComesBackExactly`, `BucketsWithoutTwinRootsDoNotClash`, `TwinRootsStopTheRestore`).
- The search text is not escaped: `%` and `_` in it match anything. A plain text is found exactly where it occurs
  (`SearchFindsSubstrings`, `UnderscoreFindsEverything`).
- Pages under an ordering that does not tell the rows apart can repeat one row and omit another, exactly if a
  tie crosses a page boundary; under the default ordering they never do (`FetchesEveryRowExactly`,
  `DefaultOrderFetchesEveryRow`).
- In gateway mode a user must have MFA before being granted an administrative role, with two exceptions that the
  comment in `permissions/services.py` names: an operator and the creator of an organisation. There is a third:
  the restore of a package passes no granter either, and so gives administrative roles to users without MFA
  (`WithoutMfaExactly`, `AdministratorsWereEntrusted`, `RestoreEntrustsWithoutMfa`).
- The unique key of a resource grant lacks the organisation, and an expired row still occupies it. A share
  then succeeds without effect (`ShareReachesExactly`, `ForeignDirectGrantBlocksShare`).
- Revoking one of two overlapping shares takes the common permissions from the other
  (`OverlappingSharesFallTogether`).
- The container reader promises a ContainerError for every structural problem. Other exceptions escape for a
  header that is not text or of the wrong JSON shape, and for a well-shaped one whose salt, costs or nonce
  the libraries refuse (`StructuralErrorsEscapeExactly`, `ShortSaltEscapes`).
- In the first thirty seconds of the epoch a well-formed one-time code makes the check raise instead of
  answer; so do six digits outside ASCII at any time (`VerdictExactly`).

## Model

| member | source | states |
|---|---|---|
| TopologicalOrder.ComputeLoadOrder | apps/backend/exports/restorer.py:291-320 | the sweeping loop terminates and returns the specified load order, or the tables it is stuck on |
| TopologicalOrder.SweepOnce | apps/backend/exports/restorer.py:300-312 | one sweep resolves exactly the tables whose dependencies are resolved before them, tables of the same sweep included |
| TopologicalOrder.LoadOrderIsSortedPermutation | apps/backend/exports/restorer.py:291-320 | a successful order is a permutation of the tables with every table after all its dependencies |
| TopologicalOrder.LoadOrderFailsExactlyOnCycles | apps/backend/exports/restorer.py:313-319 | the order is refused if and only if references between different tables form a cycle or leave the package |
| TopologicalOrder.SortedMeansAcyclic | apps/backend/exports/restorer.py:313-319 | any sorted permutation excludes cycles and dangling references, so a refused schema has no valid order at all |
| Graph.NoWayOutMeansCycle | apps/backend/exports/restorer.py:313-319 | in a finite graph where every node of a set leads back into the set there is a cycle: what a stuck sweep means |
| TextCodec.IntegerRoundTrip | apps/backend/imports/services.py:120-153 | every integer is read back from its printed form |
| TextCodec.DecimalRoundTrip | apps/backend/imports/services.py:120-153 | every finite decimal is read back with the same sign, coefficient and exponent, from plain and scientific notation |
| TextCodec.DayRoundTrip | apps/backend/imports/services.py:120-153 | every calendar day is read back from its ISO form and is not taken for another format |
| TextCodec.UuidRoundTrip | apps/backend/imports/services.py:120-153 | every UUID is read back from its dashed form |
| TextCodec.TimestampIsRefused | apps/backend/imports/services.py:120-153 | a stored timestamp's printed form, with its offset, is refused by every accepted format |
| TextCodec.ValueRoundTrip | apps/backend/databases/rows.py:218-237 | a typed value, NaN included, survives printing and conversion if and only if it is no timestamp, no empty text and no text with outer white space |
| AcceptedForms.OuterSpaceNeverMatters | apps/backend/imports/services.py:121-123 | white space around a value changes nothing, and a cell of white space alone is NULL |
| AcceptedForms.BooleansExactly | apps/backend/databases/formats.py:9-11 | true, yes and 1, or false, no and 0, in any capitals; every other text is refused |
| AcceptedForms.TimestampsAreAccepted | apps/backend/databases/formats.py:7-8 | every valid day and time in either format is read as just that time |
| AcceptedForms.CalendarIsGregorian | apps/backend/imports/services.py:140-141 | the days that exist: months of 30 and 31 days by turns, 28 or 29 in February by the Gregorian rule |
| AcceptedForms.PrintedIntegerIsShortest | apps/backend/databases/rows.py:218-237 | no shorter text than the printed one stands for the same integer |
| AcceptedForms.TimestampWidth | apps/backend/databases/rows.py:218-237 | a stored timestamp is printed in 25 characters, with a fraction in 32 |
| AcceptedForms.AcceptedIsAcceptable | apps/backend/imports/services.py:120-153 | whatever text is accepted for a column stands for a value of the column's type |
| TenantRestore.TenantConnection.RestoreSchema | apps/backend/exports/restorer.py:236-268 | all tables with their columns first, then all foreign keys; stops at the first statement that fails |
| TenantRestore.TenantConnection.RestoreRows | apps/backend/exports/restorer.py:323-349 | converts and inserts the data lines of one table in order, each cell for the column that the CSV header names |
| TenantRestore.TenantConnection.RestoreTables | apps/backend/exports/restorer.py:270-288 | loads tables in load order and counts the imported rows |
| TenantRestore.TenantConnection.RestoreTenantDatabase | apps/backend/exports/restorer.py:236-288 | the whole restore of a tenant database equals its specification, errors included |
| TenantStatements.ColumnIsAdded | apps/backend/databases/ddl.py:38-60 | a column is added, last in its table, exactly under a free valid name and with limits that fit its type |
| TenantStatements.ForeignKeyIsAdded | apps/backend/databases/services.py:333-345 | a foreign key is added exactly between columns of one type, to a unique one, once for each column, and SET NULL only on a nullable one |
| TenantStatements.ForeignKeyNeedsItsColumns | apps/backend/databases/services.py:333-345 | without its two tables and columns it is refused |
| TenantStatements.RowIsInserted | apps/backend/exports/restorer.py:341-348 | a row is inserted, last in its table, exactly if no value is missing, none repeats in a unique column and each reference finds its row |
| TenantStatements.EqualMeansSameNumber | apps/backend/databases/ddl.py:51-56 | two decimals are equal to the database exactly if they stand for one number |
| TenantStatements.NamedRowIsInserted | apps/backend/exports/restorer.py:333-348 | an INSERT puts each value under its name and NULL elsewhere |
| TenantRoundTrip.SchemaRebuilds | apps/backend/exports/restorer.py:236-268 | the schema of any valid database comes back exactly: tables, columns in order, foreign keys by name |
| TenantRoundTrip.LoadOfExportable | apps/backend/exports/restorer.py:270-288 | with exportable values and a load order, loading returns the database and its row count, or stops at a forward self-reference |
| TenantRoundTrip.RestoreOfExport | apps/backend/exports/builder.py:173-213 | restoring an export gives back tables, rows and the row count if and only if no foreign key refers to a column of another type, tables form no cycle, all values are exportable and self-references point backward |
| TenantRoundTrip.RestoredSchemaIsValid | apps/backend/exports/restorer.py:236-288 | whatever a package holds, the schema its restore builds has valid identifiers and types, distinct names, and foreign keys between columns of one type that are unique where they point |
| TenantRoundTrip.EveryInsertKeepsIntegrity | apps/backend/exports/restorer.py:270-320 | at every point of a restore in load order: the inserts so far have all succeeded exactly if none refers forward in its own table, and then no row refers to a missing one and the tables hold exactly the rows loaded so far |
| TenantRoundTrip.AnyRestoreKeepsIntegrity | apps/backend/exports/restorer.py:270-288 | for packages of any origin the checks of the database see to it that no row ever refers to a missing one |
| TenantRoundTrip.HeaderOrderDoesNotMatter | apps/backend/exports/restorer.py:330-348 | with the columns of its CSV in any other order the same table is loaded, or the load stops with the same error |
| TenantRoundTrip.CyclicReferencesAreRefused | apps/backend/exports/restorer.py:313-319 | a valid database with a reference cycle is never restorable |
| TenantRoundTrip.MutualReferencesAreValidButRefused | apps/backend/exports/restorer.py:313-319 | a concrete valid database that refers both ways and is refused |
| TenantRoundTrip.TimestampBlocksRestore | apps/backend/exports/restorer.py:323-349 | one stored timestamp anywhere makes the restore fail |
| TenantRoundTrip.ForwardReferenceIsRefused | apps/backend/exports/restorer.py:323-349 | a row that refers to a later row of its own table stops the restore |
| FileStorage.StepKeepsInv | apps/backend/storage/services.py:104-214 | every step of every request, failures included, keeps the invariant that ties rows, objects and requests in progress |
| FileStorage.RunKeepsInv | apps/backend/storage/services.py:104-214 | every state of every interleaved run satisfies that invariant |
| FileStorage.VersionedCommitIsCompareAndSwap | apps/backend/storage/services.py:159-176 | in a versioned bucket a save is accepted exactly when the row still has the object key that the request saw; otherwise nothing changes |
| FileHistory.NoDanglingKeys | apps/backend/storage/services.py:104-214 | in every run, every key that a file or version row holds is stored with its size and checksum; at rest unreferenced objects are exactly those left by failures and lost races |
| FileHistory.OrphansComeFromFailures | apps/backend/storage/services.py:104-214 | no step but a failure or a lost race leaves an object behind |
| FileHistory.StepOnVersionedFile | apps/backend/storage/services.py:159-190 | a step leaves a versioned file's content alone or turns exactly the former content into one version |
| FileHistory.NoUpdateIsLost | apps/backend/storage/models.py:105-115 | every content that was ever current is still stored, and is either current or in exactly one version row with its size and checksum |
| FileHistory.VersionsFormOneChain | apps/backend/storage/models.py:105-115 | the successive contents of a versioned file form one chain without repetition: the last is current, the others are exactly its versions |
| FileHistory.UnversionedRaceLosesContent | apps/backend/storage/services.py:177-190 | without versioning, a stale save leaves the replaced object stored and unreferenced |
| FileStatus.StatusChangesExactly | apps/backend/storage/services.py:104-214 | in any step of any request only an accepted save, by its own scan's verdict, or a SetStatus touches a file's status |
| FileStatus.StatusLastsUntilChanged | apps/backend/storage/services.py:144-176 | in every interleaved run a file stays quarantined after the save of a flagged content, and active after that of a clean one, until the next accepted save or SetStatus |
| FileStatus.OnlyCleanContentIsServed | apps/backend/storage/services.py:74-94 | in every interleaved run, unless a status is set by hand, a file is active only if exactly the bytes it holds were found clean, and otherwise quarantined |
| FileStatus.StatusIsSet | apps/backend/storage/services.py:193-214 | deletion and restoration set the status asked for and nothing else |
| FileStatus.FailedRequestIsOver | apps/backend/storage/services.py:104-190 | a failed request changes no row and no object and takes no further step |
| LostContents.OrphansNeverReturn | apps/backend/storage/services.py:104-214 | over every continuation, no row ever refers to an orphan again |
| LostContents.OrphanStaysExactly | apps/backend/storage/services.py:177-190 | an orphan's object stays in storage over every continuation if and only if no request in progress read its row while it was the content of an unversioned file |
| LostContents.RaceIsReachable | apps/backend/storage/services.py:144-190 | two stale replacements reach the race from empty stores |
| LostContents.LostForGood | apps/backend/storage/services.py:177-190 | in that race the second save loses a content whose object then stays for good |
| LostContents.LostUntilDeleted | apps/backend/storage/services.py:177-190 | with a third replacement that read the lost row in time, the object can still be deleted |
| StorageService.HashAndMeasure | apps/backend/storage/services.py:49-71 | the chunk loop returns checksum and size, or refuses exactly the contents over the limit |
| StorageService.UploadAlone | apps/backend/storage/services.py:104-141 | an upload on its own adds exactly its object and one row with key, size, checksum and status |
| StorageService.ReplacementAlone | apps/backend/storage/services.py:144-190 | a replacement on its own updates the row and keeps the former content as a version, or deletes it in an unversioned bucket |
| StorageService.Service.UploadFile | apps/backend/storage/services.py:104-141 | executes the upload's steps in order, or changes nothing if the content is too large |
| StorageService.Service.UploadNewVersion | apps/backend/storage/services.py:144-190 | executes the replacement's steps in order, or changes nothing if the content is too large |
| StorageService.Service.SetFileStatus | apps/backend/storage/services.py:193-214 | deletion and restoration change the status only |
| CsvImport.LastCheckpoint | apps/backend/imports/services.py:183-231 | at most one chunk of rows lies between the last checkpoint and the row reached |
| ImportService.ImportJob.Checkpoint | apps/backend/imports/services.py:251-257 | saves counters and row, then the error records |
| ImportService.ImportJob.ImportRow | apps/backend/imports/services.py:183-231 | one row is inserted and counted, or rejected with one error record |
| ImportService.ImportJob.RunImport | apps/backend/imports/services.py:161-248 | one call, ended by the file's end, an exception or a kill at any row, leaves exactly the specified durable state |
| ImportHistory.ExceptionsLoseNothing | apps/backend/imports/services.py:161-248 | after any calls that ended with exceptions the state is that of one pass up to the saved row |
| ImportHistory.ResumedImportEqualsOnePass | apps/backend/imports/services.py:161-248 | the call that finishes leaves what one uninterrupted pass leaves: table, counters and error records |
| ImportHistory.PassIsTallied | apps/backend/imports/services.py:34-35 | imported plus rejected rows are the rows passed, with exactly one error record for each rejected row |
| ImportHistory.LineConvertsCellwise | apps/backend/imports/services.py:197-201 | a line converts if and only if each mapped cell does, to the cells' values in the order of the mapping |
| ImportHistory.PassIsTruthful | apps/backend/imports/services.py:197-231 | every stored row holds its own line's converted cells, and every error record its own line, with a refusal by the database exactly where all cells convert |
| ImportHistory.ConvertingRowIsStoredOrRefused | apps/backend/imports/services.py:183-231 | a row whose cells all convert is stored if and only if the database accepts it as the table then stands, and is otherwise recorded with the database's reason |
| ImportHistory.BadRowIsRecorded | apps/backend/imports/services.py:197-231 | any other row is recorded with the error of its first bad cell and never stored |
| ImportHistory.EveryRowConvertsOrHasABadCell | apps/backend/imports/services.py:197-201 | every row is of one of the two kinds |
| ImportHistory.AbsentColumnIsNull | apps/backend/imports/services.py:197-201 | a mapped column that the file lacks is stored as NULL, whatever its type |
| ImportHistory.KillsDuplicateAtMostOneChunkEach | apps/backend/imports/services.py:183-231 | after any calls ending in any way: every row up to the checkpoint was inserted or rejected with a record by some call, each kill repeats at most 1000 rows, and the counters add up to the checkpoint |
| SchemaService.Service.ExecuteTenantDdl | apps/backend/databases/services.py:60-62 | one statement applies wholly or not at all |
| SchemaService.Service.WriteCatalog | apps/backend/databases/services.py:65-78 | a failed catalog write leaves the catalog alone and tries the compensating statement once |
| SchemaService.Service.Execute | apps/backend/databases/services.py:116-451 | each operation equals the step relation under every combination of faults |
| SchemaCatalog.CompensationUndoes | apps/backend/databases/services.py:65-78 | the compensating drop takes back exactly what the creation added |
| SchemaCatalog.StepKeepsInv | apps/backend/databases/services.py:116-451 | any operation, with any of its steps failing and any foreign key that the call accepts, leaves every difference between the stores explained |
| SchemaCatalog.CatalogDescribesSchemas | apps/backend/databases/services.py:116-451 | over every run of calls one after the other: a physical-only object comes from a failed compensation or was stranded by a deletion, a catalog-only one from a failed catalog delete, and without any of the three the catalog describes the schemas exactly |
| SchemaCatalog.DriftNeedsCause | apps/backend/databases/services.py:65-78 | leftovers grow only by a failed compensation, ghosts only by a failed catalog delete, stranded constraints only by a deletion under an astray foreign key |
| SchemaCatalog.AlignedRunsStrandNothing | apps/backend/databases/services.py:313-386 | a run whose foreign keys name columns of their referenced tables never strands a constraint |
| SchemaCatalog.DeletionAgreesUnlessAstray | apps/backend/databases/services.py:389-451 | deleting a table or a tenant database keeps the stores in agreement if and only if no foreign key that stays holds a column of what is deleted |
| SchemaCatalog.AstrayForeignKeyDrifts | apps/backend/databases/views.py:166-200 | a foreign key with a column of a third table is accepted by the create call, and deleting that table then drifts with no fault at all |
| SchemaCatalog.AstrayDatabaseDrifts | apps/backend/databases/views.py:166-200 | so does deleting a tenant database that holds the column of another database's foreign key |
| SchemaEffects.DatabaseIsCreated | apps/backend/databases/services.py:116-151 | refused exactly under a taken name; else both stores gain the database and nothing else |
| SchemaEffects.TableIsCreated | apps/backend/databases/services.py:154-213 | refused exactly without its database or under a taken name; else both stores gain the table with its "id" column and nothing else |
| SchemaEffects.ColumnIsAdded | apps/backend/databases/services.py:216-303 | refused exactly without its table, under a taken name or as "id"; else both stores gain that column and nothing else |
| SchemaEffects.ForeignKeyIsAdded | apps/backend/databases/services.py:313-386 | refused exactly where a column or table is missing, the databases differ or the column has one; else both stores gain the foreign key |
| SchemaEffects.TableIsDeleted | apps/backend/databases/services.py:389-417 | refused exactly without the table or while another one refers to it; else both stores lose the table's own objects, and the catalog the foreign keys that hold its columns |
| SchemaEffects.DatabaseIsDeleted | apps/backend/databases/services.py:420-451 | refused exactly without the database; else both stores lose everything in it, and the catalog the foreign keys that hold its columns |
| SchemaEffects.FailuresLeaveExactly | apps/backend/databases/services.py:60-78 | from stores that agree: what exactly each combination of failures leaves of a creation or a deletion |
| RestoreTransaction.SavepointsRestoreCopies | apps/backend/exports/restorer.py:166-233 | savepoint stacks on two connections implement atomic blocks that restore a copy, at any nesting depth |
| RestoreTransaction.ObjectsOnlyGrow | apps/backend/exports/restorer.py:371-396 | object storage only gains keys, and stored bytes never change |
| RestoreTransaction.RestoreIsAllOrNothing | apps/backend/exports/restorer.py:166-233 | if an exception escapes, both databases are as before and every new object is unreferenced |
| RestoreTransaction.CarefulRestoreIsComplete | apps/backend/exports/restorer.py:166-233 | it is enough that swallowed failures come before any write |
| RestoreTransaction.SwallowedWriteSplitsRestore | apps/backend/exports/restorer.py:399-426 | a swallowed failed write at the end keeps the tenant changes and drops the control plane's |
| RestoreTransaction.PackageIsRestoredWholeOrNotAtAll | apps/backend/exports/restorer.py:166-233 | any sequence of the restore's service calls either raises and changes neither database, or returns with the tenant cluster complete, and with the control plane complete too unless a role passed its check, failed its write, and nothing later had to use that connection: then and only then the control plane is as before |
| RestoreTransaction.NoRolesNoLoss | apps/backend/exports/restorer.py:399-426 | without role assignments a restore that returns has lost nothing |
| RestoreEffects.ReturnedRestoreDidAsAsked | apps/backend/exports/restorer.py:166-233 | a restore that returns has added exactly the data rows of its items in order, the contents of the files that fit under new keys, the schema objects asked for, and, unless the control plane is lost, exactly those files' keys and the rows asked for; no key dangles |
| RestoreEffects.FeasibleRestoreReturns | apps/backend/exports/restorer.py:166-233 | where the stores agree and nothing fails, a restore whose items are each new and find what they need returns, loses nothing and leaves stores that agree |
| FolderTree.ComputeFolderPath | apps/backend/exports/builder.py:53-58 | in a forest the parent walk terminates and returns the names from the root down |
| FolderStore.ReachableFoldersAreForests | apps/backend/storage/views.py:85-103 | whatever sequence of create calls is made, every bucket's folders are a forest |
| FolderStore.FolderIsCreated | apps/backend/storage/views.py:85-103 | a folder is created exactly at the root or under a folder of the same bucket without a child of that name; other buckets stay as they are |
| FolderStore.PathsAreSharedUnderTwinRootsOnly | apps/backend/storage/models.py:47-52 | in every such store, two folders of a bucket have the same path if and only if two of its root folders have the same name |
| FolderTree.LookupFollowsPath | apps/backend/storage/views.py:85-103 | following names from the root reaches a folder exactly when its path is those names |
| FolderTree.BucketRestorer.GetOrCreateFolder | apps/backend/exports/restorer.py:361-370 | creates exactly what is missing on the way and returns the cached folder |
| FolderTree.BucketRestorer.RestoreFolders | apps/backend/exports/restorer.py:371-396 | each file of the list is placed in the folder cached for its path |
| FolderTree.CacheAgreesWithLookup | apps/backend/exports/restorer.py:361-370 | what the cache holds for a path is where plain lookup leads |
| FolderTree.RestoredFoldersMatchPaths | apps/backend/exports/restorer.py:361-372 | after any list of files there is exactly one folder per non-empty prefix, and each file's folder has the exported path |
| FolderTree.SamePathSameFolder | apps/backend/exports/builder.py:53-58 | the folders of two files get one place in the restored tree if and only if they had equal paths |
| PackageArchive.TextIsInjective | apps/backend/exports/builder.py:173-251 | entries of different meaning never get the same archive name |
| PackageArchive.ArchiveWriter.WriteBytes | apps/backend/exports/builder.py:71-73 | appends the entry and records its checksum |
| PackageArchive.ArchiveWriter.WriteStream | apps/backend/exports/builder.py:75-86 | the chunk loop appends the joined content and returns its checksum |
| PackageArchive.ExportBucket | apps/backend/exports/builder.py:216-251 | one bucket's files, each content streamed the first time its checksum is met |
| PackageArchive.VerifyChecksums | apps/backend/exports/restorer.py:143-163 | accepts exactly the archives whose recorded checksums all fit |
| PackageIntegrity.PackageIsSound | apps/backend/exports/builder.py:89-170 | no archive name twice, nor its text (ids being 32 hexadecimal digits); checksums for every entry but the manifest; the package verifies; every content reference resolves to bytes of the file's checksum |
| PackageIntegrity.ExportSucceedsExactly | apps/backend/exports/builder.py:216-251 | an export succeeds if and only if the first file of each checksum is intact, and then has one object per distinct checksum across all buckets |
| PackageIntegrity.FileComesBackIntact | apps/backend/exports/builder.py:216-251 | with a collision-free hash the archive holds a file's own bytes under its reference if and only if its own stored object was intact |
| PackageIntegrity.DatabasesAreReadBack | apps/backend/exports/builder.py:173-213 | every package that gets built gives back, by name, each database's schema, each table's rows and the manifest |
| BucketRoundTrip.RestoreBucket | apps/backend/exports/restorer.py:352-396 | the restoring loop: folders as needed, content by reference, files over the limit skipped; a missing entry stops it, and so does a name that an active file of the folder already has |
| BucketRoundTrip.BucketComesBackExactly | apps/backend/storage/models.py:86-93 | from one organisation to another, however the package was de-duplicated: exactly the bucket's files within the upload limit come back, in order, each with its own bytes and name in a folder of the same path, if and only if no two of them that pass the scan have one non-empty folder path and one name; otherwise the restore stops on a taken name |
| BucketRoundTrip.BucketsWithoutTwinRootsDoNotClash | apps/backend/storage/models.py:47-52 | a bucket that obeys the constraint on active names and has no two root folders of one name has no such two files, so it always comes back |
| BucketRoundTrip.TwinRootsStopTheRestore | apps/backend/storage/models.py:47-52 | two root folders of one name with one active file of one name each: a bucket that the create call builds and whose restore always fails |
| RowQuery.BuildWhere | apps/backend/databases/rows.py:54-74 | the two loops produce the specified clause and parameter list, or refuse an unknown column |
| RowQuery.WhereMeansAsked | apps/backend/databases/rows.py:54-74 | read back as SQL text with three-valued logic, the clause uses every parameter once in order and is true for exactly the rows asked for |
| RowQuery.RefusedExactlyOnUnknown | apps/backend/databases/rows.py:59-61 | refused if and only if a filter names a column the table does not have |
| RowQuery.ParenthesesMatter | apps/backend/databases/rows.py:65-70 | without its parentheses the search would escape the filters |
| RowQuery.PlaceholdersMatchParameters | apps/backend/databases/rows.py:54-74 | a clause has exactly one placeholder for each parameter and no meaning with any other number |
| RowSearch.SearchFindsSubstrings | apps/backend/databases/rows.py:54-74 | a search for plain text selects exactly the rows that satisfy every filter and hold the text, up to capitals, in some text column |
| RowSearch.UnderscoreFindsEverything | apps/backend/databases/rows.py:65-70 | an underscore in the search text finds every text that is not empty |
| RowPaging.SelectedAreAsked | apps/backend/databases/rows.py:104-115 | the rows that both the count and the page query select are those asked for, each as often as stored |
| RowPaging.ListingIsConsistent | apps/backend/databases/rows.py:77-124 | for any limit and offset the page holds as many of the counted rows as there are from the offset on, up to the clamped limit, and only rows asked for |
| RowPaging.PagesOfDistinctRanks | apps/backend/databases/rows.py:86-119 | under an ordering without ties the pages at offsets 0, L, 2L, ... concatenate to the sorted rows |
| RowPaging.ReliableAtExactly | apps/backend/databases/rows.py:92-109 | pages of a given size give every row exactly once, whatever order ties come in, if and only if no tie crosses a page boundary |
| RowPaging.FetchesEveryRowExactly | apps/backend/databases/rows.py:77-124 | list_rows call after call, at the offsets that the clamped limit grants, gives exactly the rows asked for, each as often as stored, if and only if no tie crosses a page boundary |
| RowPaging.DefaultOrderFetchesEveryRow | apps/backend/databases/rows.py:101-102 | under the default ordering by primary key it does so for every limit |
| RowPaging.PagingIsReliableExactly | apps/backend/databases/rows.py:92-109 | pages of every size give every row exactly once, whatever order ties come in, if and only if the ordering has no ties |
| Authorization.AssignmentGrantsExactly | apps/backend/permissions/services.py:26-36 | an assignment changes exactly the decisions of its user, its role's codes and its organisation |
| Authorization.GrantChangesExactly | apps/backend/permissions/services.py:135-168 | a direct grant changes exactly one key's decisions, in one organisation |
| Sharing.HigherLevelsAllowMore | apps/backend/sharing/services.py:52-74 | for every resource type the codes of a lower level are strictly contained in those of a higher one |
| Sharing.ShareGrantsExactly | apps/backend/sharing/services.py:178-211 | a share gives exactly the missing keys of targets and codes, and leaves every existing row and expiry alone |
| Sharing.ShareReachesExactly | apps/backend/sharing/services.py:191-211 | a target has the permission afterwards if and only if no row stood there and the share is live, or the row there is the organisation's own and live |
| Sharing.RevokeRemovesExactly | apps/backend/sharing/services.py:240-250 | revocation removes exactly the share's keys under its organisation |
| Sharing.CreateThenRevoke | apps/backend/sharing/services.py:178-250 | create then revoke gives the original rows less the organisation's own at the share's keys, and exactly the original rows if and only if it had none there |
| Sharing.OverlappingSharesFallTogether | apps/backend/sharing/services.py:230-252 | revoking one share takes a common key from another that is not revoked |
| Decisions.PermissionExactly | apps/backend/permissions/services.py:26-70 | has_permission is true if and only if some assignment in force there has a role with the code, or a resource is given and its grant row is there, is this organisation's and has not expired |
| Decisions.AssignmentIsAcceptedExactly | apps/backend/permissions/services.py:86-124 | exactly when assign_role adds its row |
| Decisions.AssignmentDecidesExactly | apps/backend/permissions/services.py:86-124 | which answers of has_permission an assignment turns positive |
| Decisions.GrantDecidesExactly | apps/backend/permissions/services.py:135-168 | which one a direct grant turns positive, and when it is refused |
| Decisions.ShareDecidesExactly | apps/backend/sharing/services.py:178-211 | which ones a share turns positive, by principal, level, resource and expiry |
| Decisions.RevocationDecidesExactly | apps/backend/sharing/services.py:240-250 | which ones a revocation turns negative: those that only the organisation's grant row gave |
| Decisions.ShareIsAcceptedExactly | apps/backend/sharing/services.py:132-176 | exactly when a share may be created |
| Decisions.LevelsExactly | apps/backend/sharing/services.py:52-74 | reading from level read on, writing from write on, everything else for admin only; a connected database is read only |
| SharingService.Store.Assign | apps/backend/permissions/services.py:86-124 | the checks in order, then one new row, or an error and no change |
| SharingService.Store.GrantPermission | apps/backend/permissions/services.py:135-168 | one new row for a known code and a free key, or an error and no change |
| SharingService.Store.GrantToAll | apps/backend/sharing/services.py:192-211 | the inner loop, in any order of users, inserts exactly the missing rows and stops on an unknown code |
| SharingService.Store.Create | apps/backend/sharing/services.py:132-227 | checks, then all rows or, on an unknown code, a full rollback |
| SharingService.Store.Revoke | apps/backend/sharing/services.py:230-262 | deletes the specified rows and stamps the share |
| TenantIsolation.PlatformWideIsSuperOnly | apps/backend/permissions/services.py:90-93 | in every run, only super-administrators are assigned platform-wide |
| CallEffects.AssignTakesEffect | apps/backend/organizations/views.py:90-113 | of each kind of caller: exactly when an assignment goes through, and what it changes |
| CallEffects.OrganizationTakesEffect | apps/backend/organizations/services.py:29-45 | creating an organisation makes its creator, and nobody else, a member and administrator, or changes nothing |
| CallEffects.DirectGrantTakesEffect | apps/backend/permissions/services.py:135-168 | in a run: exactly when a direct grant is refused, and otherwise which answer changes |
| CallEffects.ShareTakesEffect | apps/backend/sharing/services.py:132-227 | in a run: exactly when a share is refused, and otherwise which answers change |
| CallEffects.RevocationTakesEffect | apps/backend/sharing/services.py:230-262 | in a run: exactly when a revocation is refused, and otherwise which answers change |
| TenantIsolation.PlatformDecisionsNeedSuper | apps/backend/permissions/services.py:56-70 | a positive decision without an organisation always comes from a platform-wide super-administrator row |
| TenantIsolation.ViewDecides | apps/backend/permissions/services.py:26-70 | every decision is made from the organisation's own rows and the platform-wide ones alone |
| TenantIsolation.ForeignRunChangesNothing | apps/backend/permissions/services.py:26-168 | any finite run of other organisations' calls leaves every decision in this one unchanged |
| TenantIsolation.StepAlike | apps/backend/sharing/services.py:132-262 | states that look alike to an organisation still do after its call, which has the same outcome in both |
| TenantIsolation.OthersNeverMatter | apps/backend/sharing/services.py:132-262 | in interleaved runs, decisions and outcomes are those of the run with the other organisations' calls deleted, unless some resource is granted directly both by this organisation and by another, or by one and owned by the other |
| TenantIsolation.EveryGrantHasAnAuthor | apps/backend/sharing/services.py:132-227 | in every run each grant row, with its organisation and expiry, comes from a direct grant or from a share that its creator was entitled to make, of the organisation's own resource, with somebody who was an active member then |
| TenantIsolation.AccessHasALiveAuthor | apps/backend/permissions/services.py:39-53 | in every run and at any time, access through a grant goes back to a direct grant or an authorised share of that organisation whose time had not run out |
| TenantIsolation.RowsGoByRevocationOnly | apps/backend/sharing/services.py:230-262 | a grant row disappears only when an entitled active member revokes a share of the row's own organisation that stands for its key |
| TenantIsolation.ForeignDirectGrantBlocksShare | apps/backend/permissions/models.py:140-144 | why that exception is needed: a grant elsewhere on the same key keeps a share from reaching its user |
| Administrators.AdministratorsWereEntrusted | apps/backend/permissions/services.py:94-115 | in every run in gateway mode, whoever holds an administrative role had MFA when given one in that organisation or platform-wide, or created the organisation, or was given one by an operator or by a package's restore; assigning oneself a role never adds anybody |
| Administrators.WithoutMfaExactly | apps/backend/permissions/services.py:102-112 | an administrative role goes to a user without MFA if and only if the call passes the checks before it, is not another user's, and the assignment is neither a duplicate nor a forbidden platform-wide one |
| Administrators.RestoreEntrustsWithoutMfa | apps/backend/exports/restorer.py:399-426 | into a new organisation a restore brings back an administrative role for a user who never had MFA, did not create it and was named by no operator |
| BigEndian.NumberRoundTrip | apps/backend/exports/container.py:91 | a number that fits is read back from its big-endian bytes |
| Container.HexRoundTrip | apps/backend/exports/container.py:84-85 | salt and nonce are read back from their hexadecimal text |
| Container.FrameParts | apps/backend/exports/container.py:91-116 | magic, length, header and payload of a frame are found again, whatever their lengths |
| Container.ContainerRoundTrip | apps/backend/exports/container.py:67-140 | writing fails only over the header's length; a container written without passphrase reads back with any; one written with a passphrase reads back with that one and fails to decrypt with none; with another it fails to decrypt if and only if no text sealed under the other's key is the ciphertext |
| Container.WrittenHeaderReads | apps/backend/exports/container.py:67-91 | the header reads back as documented: format, algorithm, key derivation with its costs, salt and nonce |
| Container.AlteredCiphertext | apps/backend/exports/container.py:137-140 | any bytes in place of the ciphertext read as m exactly if they are m sealed under the derived key, and otherwise fail to decrypt |
| Container.EncryptedReadsAreAuthentic | apps/backend/exports/container.py:104-140 | for bytes of any origin, what is decrypted under an encryption entry was sealed under the key of the passphrase, salt and costs that the entry names, whatever their lengths |
| Container.StructuralErrorsEscapeExactly | apps/backend/exports/container.py:94-140 | data without the magic are refused; with it, exactly which headers let another exception than the documented ones escape |
| Container.ShortSaltEscapes | apps/backend/exports/container.py:119-136 | one of them: a salt that the key derivation refuses, in a header of the right shape |
| Container.ReadingLosesNothing | apps/backend/exports/container.py:94-116 | header and payload as read, framed again, are the data |
| Container.LawsAreConsistent | apps/backend/exports/container.py:55-64 | the laws assumed of the JSON codec, the key derivation and the cipher can be met together with finitely many keys |
| Totp.TruncateIsRfc | apps/backend/accounts/totp.py:39-40 | truncation stays inside the digest and is the number of section 5.3 of RFC 4226 |
| Totp.PeriodIsThirtySeconds | apps/backend/accounts/totp.py:44-46 | a time's counter is the number of whole thirty-second periods since the epoch |
| Totp.MessageIsBigEndian | apps/backend/accounts/totp.py:37 | the counter is sent as eight bytes, the most significant first |
| Totp.CodesAreSixDigits | apps/backend/accounts/totp.py:34-41 | codes exist for exactly the 64-bit counters, have six digits and read back as the truncated value |
| Totp.AcceptsOnlyTheWindow | apps/backend/accounts/totp.py:49-60 | whatever the text and the time, only the codes of counters c - 1, c and c + 1 are accepted |
| Totp.DriftOfOnePeriodIsAccepted | apps/backend/accounts/totp.py:44-60 | for real times at most thirty seconds apart, a generated code is accepted |
| Totp.VerdictExactly | apps/backend/accounts/totp.py:34-60 | the verdict in full: malformed text is rejected, well-formed text raises exactly below thirty seconds or with digits outside ASCII, and is otherwise accepted exactly in the window |

## Left out

- HTTP views, serializers, the web frontend, audit logging and throttling: plumbing around the modelled services. The checks of a view are modelled only where a theorem needs them.
- Cryptographic primitives, JSON, ZIP, CSV and PostgreSQL themselves: parameters with the laws in the `requires` of the theorems that use them.
- Commits of a restore's two outer transactions are assumed to succeed, and a commit whose outcome stays unknown is not modelled.
- Celery scheduling: a retry is another call of the import. The job's final FAILED state is not modelled.
- validate_column_mapping, start_import, insert_row, update_row and delete_row: single checks or single statements with no state across calls.
- iter_export_rows: its batches are modelled as the full list of rows; the cursor's batch size has no effect on it.
- The CSV text form covers what Python's parsers read from printed values. Their further leniencies (underscores and non-ASCII digits in int, a blank before a one-digit day) and JSON columns are not part of it.
- The CSV header is compared as a list of column names; quoting and delimiters are the CSV codec's. So is its field limit: a text of more than 131072 characters is exported but stops the restore, and the round trips are about texts below that.
- Decimals are finite or NaN. Infinity, which a column with a precision does not hold, is not a value of the model.
- Default values of columns: carried as an opaque part of the column, never validated. A hand-made CSV that leaves out "id" or a column with a default is refused, where the source would fill the default in; other columns left out become NULL, as in the source.
- MIME sniffing and malware scanning: a scan's verdict is a parameter. The unique active file name per folder is modelled for restores and left out of the interleaved uploads. FileDetailView.patch, which saves every field of a possibly stale row, is outside the interleaving model.
- Object keys are fresh by construction (UUIDs in the source), and so are the ids of shares and folders; an id of a share carries its organisation, and a folder's id is its place in the order of creation.
- Resource and team ids belong to one organisation for good: the source has no operation that moves them.
- ordering and direction of list_rows are modelled as a rank per row; parsing the ordering parameter is not.
- TOTP secrets: base32 decoding is part of the keyed MAC parameter, so a malformed secret is not modelled. Times are reals, not floating-point numbers.
- Container: bytes that parse as JSON with duplicate keys or non-string keys are the JSON codec's matter. The header itself is not authenticated by the format, so AlteredCiphertext is about the payload.
- set_external_sharing_enabled and get_user_organization_ids: one flag and one query.
- Schema calls run one after the other: each has its failures between DDL and catalog write, but two calls in progress at once are not modelled. Without any fault, two of them on one table can make the stores drift.
- MembershipChange, ResourceChange and MfaChange stand for any change of those rows; who may ask for one is not modelled. An operator may call assign_role with any role, of which the bootstrap command is one case.
- Connected databases, analytics, backups, MFA sessions, application credentials: independent components with no invariant across the modelled stores.
