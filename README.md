# LogicalDOC document lifecycle and persistence helpers, in Dafny

This project models two parts of the LogicalDOC document management system.

The first is the **document manager**, which coordinates the life of a document. It handles:
- locking, checkout, unlock and makeImmutable;
- checkin, including the rollback when the new file cannot be written;
- metadata update, move, rename and file replacement;
- creation, copies and aliases;
- indexing and the re-indexing of aliases;
- archiving;
- deletion of a version, with the downgrade of the document's current version.

The manager holds four stores:
- the record store, a map from document id to record;
- the version table, an append-only sequence of version rows with a soft-delete code;
- the content store, a set of (document id, file) pairs;
- the full-text index, the set of documents that have a hit.

The second part is the **generic persistence layer**. It covers:
- the HQL composed by `findByWhere` and `findIdsByWhere`;
- DBMS detection;
- the dialect-specific row limit of `insertTopClause`;
- the null-safe numeric query results;
- parameter binding;
- soft deletion through `delete(id, code)`, `findById` and `deleteAll`;
- the attribute pass of `saveOrUpdate`.

Modules:
- `Common` defines `Option` and `Result`.
- `Text` holds the few `java.lang.String` operations the code relies on, over `seq<char>`.
- `VersionNumbers` holds version names and the numbering of `Version.create`.
- `Documents` holds the record and the pure decisions taken on one record.
- `VersionLedger` holds the version table and the scans run over it.
- `DocumentManagement` holds the `DocumentManager` class, with one method per lifecycle operation. Each method states the complete new state of the four stores and keeps the invariant `Valid()`. That invariant says:
  - ids are keys;
  - no alias points at another alias;
  - version ids are unique.
- `Persistence` holds the DAO helpers and the `EntityTable` class.

Source paths below are relative to the repository root.

## Model

| member | source | states |
|---|---|---|
| VersionNumbers.Next | logicaldoc-core/src/test/java/com/logicaldoc/core/document/DocumentManagerImplTest.java:691 | the next version name always comes strictly later; a release bumps the major number and resets the minor one, any other change bumps the minor number |
| VersionNumbers.ParseFormat | logicaldoc-core/src/test/java/com/logicaldoc/core/document/DocumentManagerImplTest.java:111 | reading a rendered version name gives the version back |
| VersionNumbers.FormatInjective | logicaldoc-core/src/test/java/com/logicaldoc/core/document/DocumentManagerImplTest.java:111 | two versions with the same name are the same version |
| VersionNumbers.MinorBumpsAreGapless | logicaldoc-core/src/test/java/com/logicaldoc/core/document/DocumentManagerImplTest.java:850 | k minor changes raise the minor number by exactly k and keep the major number |
| VersionNumbers.NextOnNames | logicaldoc-core/src/test/java/com/logicaldoc/core/document/DocumentManagerImplTest.java:850 | "1.0" becomes "2.0" on a release and "1.1" on a minor change; "1.3" becomes "1.4" |
| Documents.LockDocument | logicaldoc-core/src/main/java/com/logicaldoc/core/document/DocumentManagerImpl.java:383-407 | re-locking in the same status by the holder changes nothing; a record that is not unlocked is refused with the current holder's name, or fails on a missing holder id; otherwise only status, holder id and holder name change, to the caller's |
| Documents.LockExcludesOthers | logicaldoc-core/src/test/java/com/logicaldoc/core/document/DocumentManagerImplTest.java:429-450 | after one user locks a free record, any other user is refused and told who holds it |
| Documents.LockIdempotent | logicaldoc-core/src/main/java/com/logicaldoc/core/document/DocumentManagerImpl.java:386-389 | locking twice by the same user is the same as locking once |
| Documents.UnlockDocument | logicaldoc-core/src/main/java/com/logicaldoc/core/document/DocumentManagerImpl.java:1091-1117 | unlock fails exactly for a non-admin who is not the holder of a held record; a non-admin unlocking a free record changes nothing; a real change clears status, holder id, holder name and external resource id and nothing else but the immutable flag, which only an admin clears |
| Documents.UnlockUndoesLock | logicaldoc-core/src/test/java/com/logicaldoc/core/document/DocumentManagerImplTest.java:469-496 | the holder unlocking a lock taken on a free record gets the original record back |
| Documents.FindDocument | logicaldoc-core/src/main/java/com/logicaldoc/core/document/DocumentManagerImpl.java:384 | findDocument gives the record itself, or the record an alias points at |
| Documents.FindDocumentLandsOnDocument | logicaldoc-core/src/main/java/com/logicaldoc/core/document/DocumentManagerImpl.java:384 | in a store without nested aliases the record found is never an alias, and finding again gives the same record |
| Documents.MakeImmutable | logicaldoc-core/src/main/java/com/logicaldoc/core/document/DocumentManagerImpl.java:1123-1136 | succeeds exactly on a mutable record, which then no user without admin rights may alter; otherwise fails with the immutable error |
| Documents.NewVersion | logicaldoc-core/src/main/java/com/logicaldoc/core/document/DocumentManagerImpl.java:301-302 | every event except STORED moves to the next version name; CHECKEDIN and STORED also make it the file version; the row snapshots the document |
| Documents.CheckinDocument | logicaldoc-core/src/main/java/com/logicaldoc/core/document/DocumentManagerImpl.java:245-304 | a checked-in record keeps its folder and id; takes the next version as version and file version, and the given name, type and size; is unlocked with no holder; loses stamp, signature, OCR and barcode flags; is queued for indexing unless skipped; takes the custom id of the metadata |
| Documents.CheckinRollbackRestores | logicaldoc-core/src/main/java/com/logicaldoc/core/document/DocumentManagerImpl.java:308-325 | the rollback `Documents.RollBackCheckin` applied to a failed checkin leaves the record as it was, except that holder id, external resource id and comment stay cleared |
| Documents.CheckinNameIsTheArgument | logicaldoc-core/src/main/java/com/logicaldoc/core/document/DocumentManagerImpl.java:286-287 | the name given to checkin wins over the metadata's name, even when it is empty |
| Documents.TemplateFlagKeptIffSameTemplate | logicaldoc-core/src/main/java/com/logicaldoc/core/document/DocumentManagerImpl.java:727-747 | the OCR or barcode flag of the value object is kept exactly when the record already had that very template |
| Documents.UpdatedDocument | logicaldoc-core/src/main/java/com/logicaldoc/core/document/DocumentManagerImpl.java:628-690 | an update keeps the id, reference, folder, tenant, lock and immutability; queues re-indexing; cuts a minor version; takes the value object's name when non-empty, its custom id when given, its locale, and its template, OCR template and barcode template, so a value object without a template leaves the record without one; keeps the OCR and barcode flags only under the same template; no other field changes |
| Documents.RenameRecordedWhenNameChanges | logicaldoc-core/src/main/java/com/logicaldoc/core/document/DocumentManagerImpl.java:692-706 | a name change by update is always recorded as a rename; a differing but empty name is recorded although the name stays |
| Documents.MovedDocument | logicaldoc-core/src/main/java/com/logicaldoc/core/document/DocumentManagerImpl.java:762-788 | a move changes only the folder, the version (one minor step) and, for an indexed record, the index state back to TO_INDEX |
| Documents.RenameType | logicaldoc-core/src/main/java/com/logicaldoc/core/document/DocumentManagerImpl.java:1152-1157 | the type after a rename is "unknown" or the extension of the trimmed name, and never ends with a blank |
| Documents.RenameTypeKeepsTrailingBlank | logicaldoc-core/src/main/java/com/logicaldoc/core/document/DocumentManagerImpl.java:1152-1157 | for the name "a.pdf " the code as written gives the type "pdf " while the stored name is "a.pdf" |
| Documents.RenameTypeAgreesOnTrimmedName | logicaldoc-core/src/main/java/com/logicaldoc/core/document/DocumentManagerImpl.java:1152-1157 | for a new name without blanks around it, the type as written and the intended type agree |
| Documents.RenamedDocument | logicaldoc-core/src/main/java/com/logicaldoc/core/document/DocumentManagerImpl.java:1149-1166 | a rename stores the trimmed name, a type that matches its extension (or "unknown"), TO_INDEX and the next minor version; nothing else changes |
| Documents.CreationType | logicaldoc-core/src/main/java/com/logicaldoc/core/document/DocumentManagerImpl.java:923-927 | the type of a new file is "unknown" or the lower-cased extension, and it is an extension only when a dot follows the first character |
| Documents.AttributesForCreation | logicaldoc-core/src/main/java/com/logicaldoc/core/document/DocumentManagerImpl.java:922-961 | a new record is unlocked at the start version with the given size; missing publisher and creator default to the acting user; every other attribute comes from the value object |
| Documents.ClonedForCopy | logicaldoc-core/src/main/java/com/logicaldoc/core/document/DocumentManagerImpl.java:1008-1020 | a copy is the copy-constructed record, so it has no comment, made a fresh record in the target folder; an indexed original gives TO_INDEX; stamp, signature, links, OCR and barcode flags are reset; name, custom id and file version are kept; nothing else changes |
| Documents.AliasFor | logicaldoc-core/src/main/java/com/logicaldoc/core/document/DocumentManagerImpl.java:1205-1262 | an alias points at the document itself, or at the document's own target when it is an alias; it shares the version data; a non-empty alias type renames the extension to that type in lower case and makes it the type; without one the name is kept and the type is the extension as it is when the last dot is past the first character, else "unknown"; publisher and creator are the acting user |
| Documents.AliasKeepsStoreFlat | logicaldoc-core/src/main/java/com/logicaldoc/core/document/DocumentManagerImpl.java:1244-1250 | adding an alias of any record to a store without nested aliases keeps the store without nested aliases |
| Documents.MarkAliasesToIndex | logicaldoc-core/src/main/java/com/logicaldoc/core/document/DocumentManagerImpl.java:599-602 | every record referencing the target, except the target itself, is set to TO_INDEX; no other record changes |
| Documents.MarkThenStore | logicaldoc-core/src/main/java/com/logicaldoc/core/document/DocumentManagerImpl.java:1273-1281 | storing the referenced record before or after marking its aliases gives the same store |
| Documents.MarkKeepsFlat | logicaldoc-core/src/main/java/com/logicaldoc/core/document/DocumentManagerImpl.java:599-602 | marking aliases leaves every reference as it was |
| Documents.ReplacedFileDocument | logicaldoc-core/src/main/java/com/logicaldoc/core/document/DocumentManagerImpl.java:187-196 | a replaced file gives the new size, drops stamp, signature, OCR and barcode flags, and queues re-indexing unless skipped |
| Documents.IndexingChangeIsNoop | logicaldoc-core/src/main/java/com/logicaldoc/core/document/DocumentManagerImpl.java:1265-1272 | a status change is a no-op exactly when the requested state is already the current one and is not INDEXED |
| Documents.Published | logicaldoc-core/src/main/java/com/logicaldoc/core/document/DocumentManagerImpl.java:539-555 | a successful index makes the record INDEXED and queues its aliases again, but not itself |
| Documents.SkippedOnError | logicaldoc-core/src/main/java/com/logicaldoc/core/document/DocumentManagerImpl.java:560-582 | a parsing error sets SKIP exactly when the tenant skips on error |
| Documents.ArchivedAmongIff | logicaldoc-core/src/main/java/com/logicaldoc/core/document/DocumentManagerImpl.java:1424-1437 | an id is archived exactly when it was requested and the user is admin, is `_retention`, or may archive in the record's folder |
| Documents.ArchiveAll | logicaldoc-core/src/main/java/com/logicaldoc/core/document/DocumentManagerImpl.java:1424-1437 | exactly the listed records become ARCHIVED; all other records are unchanged |
| Documents.ComposeTicketUrl | logicaldoc-core/src/main/java/com/logicaldoc/core/document/DocumentManagerImpl.java:1490-1499 | the URL starts with the prefix, or the server URL when the prefix is empty; one slash separates it from the viewer or download path and the ticket id; the length shows no slash is doubled |
| VersionLedger.FindVersion | logicaldoc-core/src/main/java/com/logicaldoc/core/HibernatePersistentObjectDAO.java:120-130 | finds the row with the id unless that row carries the default deletion code |
| VersionLedger.VersionsOf | logicaldoc-core/src/main/java/com/logicaldoc/core/document/DocumentManagerImpl.java:1293 | the listing holds exactly the live rows of the document |
| VersionLedger.NewestVersionFirst | logicaldoc-core/src/main/java/com/logicaldoc/core/document/DocumentManagerImpl.java:1364-1373 | the head of the listing is the live row of the document written last |
| VersionLedger.SoftDeleteHides | logicaldoc-core/src/main/java/com/logicaldoc/core/HibernatePersistentObjectDAO.java:77-93 | after a version is deleted it is no longer found, every other version is found as before, and ids stay unique |
| VersionLedger.SoftDeleteUnlists | logicaldoc-core/src/main/java/com/logicaldoc/core/document/DocumentManagerImpl.java:1323-1337 | a deleted version leaves its document's listing and no other row does |
| VersionLedger.IsFileVersionShared | logicaldoc-core/src/main/java/com/logicaldoc/core/document/DocumentManagerImpl.java:1302-1307 | the scan answers true exactly when another version of the listing uses the same file version |
| VersionLedger.FirstRemaining | logicaldoc-core/src/main/java/com/logicaldoc/core/document/DocumentManagerImpl.java:1364-1373 | the result is absent exactly when no version survives; otherwise it is the first live version not being deleted |
| VersionLedger.LastRemainingVersion | logicaldoc-core/src/main/java/com/logicaldoc/core/document/DocumentManagerImpl.java:1364-1373 | the loop returns the first version of the listing that survives the deletion |
| VersionLedger.ResizedVersions | logicaldoc-core/src/main/java/com/logicaldoc/core/document/DocumentManagerImpl.java:177-185 | exactly the live rows of the document at that file version take the new size |
| VersionLedger.AwaitDocumentRow | logicaldoc-core/src/main/java/com/logicaldoc/core/document/DocumentManagerImpl.java:896-910 | the version is written exactly when the record shows up within 100 polls; polling stops at the first non-zero count |
| DocumentManagement.FilesOf | logicaldoc-core/src/main/java/com/logicaldoc/core/document/DocumentManagerImpl.java:167-170 | exactly the content entries of the document at the file version |
| DocumentManagement.Publishing | logicaldoc-core/src/main/java/com/logicaldoc/core/document/DocumentManagerImpl.java:521-557 | indexing succeeds exactly when the text can be extracted; then the record is INDEXED and in the index; otherwise a parsing failure is reported and the index is unchanged |
| DocumentManagement.DocumentManager.Lock | logicaldoc-core/src/main/java/com/logicaldoc/core/document/DocumentManagerImpl.java:376-410 | on the record findDocument resolves the id to, stores it as LockDocument decides, or reports its refusal with nothing changed |
| DocumentManagement.DocumentManager.Checkout | logicaldoc-core/src/main/java/com/logicaldoc/core/document/DocumentManagerImpl.java:369-373 | a lock in the CHECKED_OUT status on the record findDocument resolves the id to |
| DocumentManagement.DocumentManager.Unlock | logicaldoc-core/src/main/java/com/logicaldoc/core/document/DocumentManagerImpl.java:1084-1120 | on the record findDocument resolves the id to, stores it as UnlockDocument decides, or reports its refusal with nothing changed |
| DocumentManagement.DocumentManager.MakeImmutable | logicaldoc-core/src/main/java/com/logicaldoc/core/document/DocumentManagerImpl.java:1123-1136 | stores the immutable record, or fails with nothing changed |
| DocumentManagement.DocumentManager.Checkin | logicaldoc-core/src/main/java/com/logicaldoc/core/document/DocumentManagerImpl.java:210-342 | on the record findDocument resolves the id to: a missing name is refused; an immutable record is left alone for every user; a taken custom id is refused; a failed file write leaves the record as before, apart from the cleared holder, external id and comment; otherwise the checked-in record, its main file and one new version row are stored |
| DocumentManagement.DocumentManager.Update | logicaldoc-core/src/main/java/com/logicaldoc/core/document/DocumentManagerImpl.java:605-690 | a missing record or value object is refused; an immutable record is refused to non-admins; a taken custom id is refused; otherwise the updated record and a version row are stored, the aliases are queued, and a locale change drops the index hit |
| DocumentManagement.DocumentManager.MoveToFolder | logicaldoc-core/src/main/java/com/logicaldoc/core/document/DocumentManagerImpl.java:759-805 | a move into the current folder changes nothing; an immutable record is refused to non-admins; otherwise the record moves, a version row is written, and an indexed record leaves the index and queues its aliases |
| DocumentManagement.DocumentManager.Rename | logicaldoc-core/src/main/java/com/logicaldoc/core/document/DocumentManagerImpl.java:1139-1175 | an immutable record is refused to non-admins; otherwise the renamed record and a version row are stored and its aliases are queued |
| DocumentManagement.DocumentManager.ReplaceFile | logicaldoc-core/src/main/java/com/logicaldoc/core/document/DocumentManagerImpl.java:155-200 | on the record findDocument resolves the id to: only a mutable unlocked record is touched; then the other files of that file version are deleted, the main file is stored, the matching version rows are resized and the record is reset |
| DocumentManagement.DocumentManager.Create | logicaldoc-core/src/main/java/com/logicaldoc/core/document/DocumentManagerImpl.java:833-880 | a zero-byte file is refused with nothing changed; a failed file write removes the new record again; otherwise the record, its main file and its first version row are stored under fresh ids |
| DocumentManagement.DocumentManager.CreateAlias | logicaldoc-core/src/main/java/com/logicaldoc/core/document/DocumentManagerImpl.java:1205-1262 | a missing document is refused; otherwise exactly one alias record is added under a fresh id |
| DocumentManagement.DocumentManager.CopyToFolder | logicaldoc-core/src/main/java/com/logicaldoc/core/document/DocumentManagerImpl.java:995-1045 | an alias is copied as a new alias of the same target; any other record is created anew from its clone, which carries no comment |
| DocumentManagement.DocumentManager.DeleteFromIndex | logicaldoc-core/src/main/java/com/logicaldoc/core/document/DocumentManagerImpl.java:423-437 | the hit is removed, the record goes back to TO_INDEX and its aliases are queued |
| DocumentManagement.DocumentManager.ChangeIndexingStatus | logicaldoc-core/src/main/java/com/logicaldoc/core/document/DocumentManagerImpl.java:1265-1283 | a no-op request changes nothing; leaving INDEXED drops the hit and queues the aliases; the record takes the requested state |
| DocumentManagement.DocumentManager.Publish | logicaldoc-core/src/main/java/com/logicaldoc/core/document/DocumentManagerImpl.java:532-555 | the last step of index for one record: its new state and outcome are exactly those `Publishing` gives |
| DocumentManagement.DocumentManager.Index | logicaldoc-core/src/main/java/com/logicaldoc/core/document/DocumentManagerImpl.java:488-558 | a missing record is reported; an alias of a missing record becomes SKIP; a queued target is indexed first and its failure is passed on; then the record is indexed |
| DocumentManagement.DocumentManager.ArchiveDocuments | logicaldoc-core/src/main/java/com/logicaldoc/core/document/DocumentManagerImpl.java:1415-1444 | archives exactly the permitted records among those requested, and removes exactly those from the index |
| DocumentManagement.DocumentManager.DeleteVersionRow | logicaldoc-core/src/main/java/com/logicaldoc/core/document/DocumentManagerImpl.java:1323 | versionDAO.delete soft-deletes the row and changes nothing else |
| DocumentManagement.DocumentManager.DeleteVersion | logicaldoc-core/src/main/java/com/logicaldoc/core/document/DocumentManagerImpl.java:1286-1348 | an unknown version or document is reported; a sole version is returned and nothing is deleted; otherwise the row is soft-deleted; its files go only when no other version shares the file version; the document is downgraded to the first remaining version only when its current version was the deleted one |
| DocumentManagement.GetStore | logicaldoc-core/src/main/java/com/logicaldoc/core/document/DocumentManagerImpl.java:1620-1642 | the folder's own store if set, else that of the closest parent that sets one, else the configured store (default 1) |
| Persistence.Sorting | logicaldoc-core/src/main/java/com/logicaldoc/core/HibernatePersistentObjectDAO.java:142-144 | an empty order stays empty; any other order is kept as the tail of the sorting clause |
| Persistence.SortingSaysOrderBy | logicaldoc-core/src/main/java/com/logicaldoc/core/HibernatePersistentObjectDAO.java:142-144 | a non-empty sorting always says `order by` in some letter case, and is never prefixed twice |
| Persistence.FindByWhereQuery | logicaldoc-core/src/main/java/com/logicaldoc/core/HibernatePersistentObjectDAO.java:137-153 | the query starts with the class and the filter on deleted rows; a non-empty condition is wrapped in ` and (...) ` right after it; the query ends with the sorting clause, which is `order by`, a blank and the order unless the order already contains `order by`, or ` ` when there is none; nothing else is in between |
| Persistence.LookupHeadFiltersDeleted | logicaldoc-core/src/main/java/com/logicaldoc/core/HibernatePersistentObjectDAO.java:66 | every lookup carries the `_entity.deleted=0` filter in its where clause |
| Persistence.FindIdsByWhereQuery | logicaldoc-core/src/main/java/com/logicaldoc/core/HibernatePersistentObjectDAO.java:193-210 | the ids query is the entity query with `select _entity.id ` in front |
| Persistence.Dbms | logicaldoc-core/src/main/java/com/logicaldoc/core/HibernatePersistentObjectDAO.java:691-694 | the configured DBMS lower-cased character by character, so of the same length and without capitals; "mysql" when unset |
| Persistence.DbmsDetection | logicaldoc-core/src/main/java/com/logicaldoc/core/HibernatePersistentObjectDAO.java:697-720 | detection ignores letter case, defaults to MySQL and counts MariaDB as MySQL |
| Persistence.FirstWhereKeyword | logicaldoc-core/src/main/java/com/logicaldoc/core/HibernatePersistentObjectDAO.java:522-527 | the first position of `where` or `WHERE`, or none when the query has neither |
| Persistence.OracleRowLimit | logicaldoc-core/src/main/java/com/logicaldoc/core/HibernatePersistentObjectDAO.java:522-527 | the ROWNUM condition replaces the first where keyword of either case and nothing else |
| Persistence.OracleAgreesOnSingleCase | logicaldoc-core/src/main/java/com/logicaldoc/core/HibernatePersistentObjectDAO.java:522-527 | on a query spelling the keyword in one letter case only, the code as written and the intended rewrite agree |
| Persistence.OracleAsWrittenLimitsSubquery | logicaldoc-core/src/main/java/com/logicaldoc/core/HibernatePersistentObjectDAO.java:522-527 | a lower-case outer `where` followed by an upper-case sub-query `WHERE` gets the condition twice as written, and once as intended |
| Persistence.OracleSubqueryExample | logicaldoc-core/src/main/java/com/logicaldoc/core/HibernatePersistentObjectDAO.java:522-527 | the same on a concrete query with a limit of 10 rows |
| Persistence.InsertTopClause | logicaldoc-core/src/main/java/com/logicaldoc/core/HibernatePersistentObjectDAO.java:493-531 | no positive limit, or an unknown DBMS, leaves the query alone; MySQL, MariaDB and PostgreSQL drop one trailing `;` and append ` LIMIT n`; SQL Server puts `TOP n` after a leading SELECT/select; Oracle gets the ROWNUM condition |
| Persistence.QueryForLong | logicaldoc-core/src/main/java/com/logicaldoc/core/HibernatePersistentObjectDAO.java:572-575 | a missing result reads as 0; any other is returned |
| Persistence.ToInt32 | logicaldoc-core/src/main/java/com/logicaldoc/core/HibernatePersistentObjectDAO.java:558 | the int cast keeps the value modulo 2^32 in the signed 32-bit range, and is the identity inside it |
| Persistence.QueryForInt | logicaldoc-core/src/main/java/com/logicaldoc/core/HibernatePersistentObjectDAO.java:557-565 | a missing result reads as 0; a result that fits is returned unchanged; the result is a 32-bit value |
| Persistence.ApplyParametersAndLimit | logicaldoc-core/src/main/java/com/logicaldoc/core/HibernatePersistentObjectDAO.java:359-367 | every given parameter is bound under its own name; the limit is set exactly when it is positive |
| Persistence.FindById | logicaldoc-core/src/main/java/com/logicaldoc/core/HibernatePersistentObjectDAO.java:120-130 | a row is found exactly when it exists and does not carry deletion code 1 |
| Persistence.SoftDeleted | logicaldoc-core/src/main/java/com/logicaldoc/core/HibernatePersistentObjectDAO.java:86-88 | only the row deleted changes, taking the code and the write time |
| Persistence.SoftDeleteVisibility | logicaldoc-core/src/main/java/com/logicaldoc/core/HibernatePersistentObjectDAO.java:77-130 | a soft delete hides the row from findById exactly when the code is 1, and never changes what findById returns for another id |
| Persistence.MarkedDeleted | logicaldoc-core/src/main/java/com/logicaldoc/core/HibernatePersistentObjectDAO.java:655-656 | exactly the listed rows take the deletion code |
| Persistence.JoinIds | logicaldoc-core/src/main/java/com/logicaldoc/core/HibernatePersistentObjectDAO.java:647-653 | the loop builds the decimal ids joined by commas |
| Persistence.IdListRoundTrip | logicaldoc-core/src/main/java/com/logicaldoc/core/HibernatePersistentObjectDAO.java:647-653 | the id list splits and parses back to the ids it was made of |
| Persistence.SavedAttribute | logicaldoc-core/src/main/java/com/logicaldoc/core/HibernatePersistentObjectDAO.java:241-247 | a multi-valued text attribute keeps its values joined by commas; any other keeps none; the rest of the attribute is unchanged |
| Persistence.SavedValuesReadBack | logicaldoc-core/src/main/java/com/logicaldoc/core/HibernatePersistentObjectDAO.java:241-247 | the joined text splits back into the values when none contains a comma |
| Persistence.SaveAttributes | logicaldoc-core/src/main/java/com/logicaldoc/core/HibernatePersistentObjectDAO.java:236-255 | every attribute is treated this way; the attribute names are kept |
| Persistence.EntityTable.Store | logicaldoc-core/src/main/java/com/logicaldoc/core/HibernatePersistentObjectDAO.java:223-234 | with storing enabled the entity is written under its id, stamped with the write time; otherwise nothing changes |
| Persistence.EntityTable.Delete | logicaldoc-core/src/main/java/com/logicaldoc/core/HibernatePersistentObjectDAO.java:77-89 | code 0 is refused; disabled storing or a row findById misses changes nothing; otherwise the row takes the code and is stored |
| Persistence.EntityTable.DeleteAll | logicaldoc-core/src/main/java/com/logicaldoc/core/HibernatePersistentObjectDAO.java:640-661 | disabled storing or no entities changes nothing; otherwise one update statement, `Persistence.DeleteAllStatement` over the joined ids, marks exactly those rows |

## Left out

- The following are not part of this model, because they are not among the files modelled:
  - `FileUtil`. Its `getExtension` and `getBaseName` are taken to be `Text.Extension` and `Text.BaseName`: the text after the last dot, or "" when there is none, and the text before it. The rename finding rests on `getExtension("a.pdf ")` being "pdf ".
  - `DocumentDAO.findDocument`, taken to resolve an alias to the record it points at. `Documents.FindDocument` models it. `DocumentManager.Lock`, `Checkout`, `Unlock`, `Checkin` and `ReplaceFile` act on the resolved record, as the source does at DocumentManagerImpl.java:163, 226, 384 and 1092. An alias whose target is missing is not modelled (`Documents.Findable`).
  - `DocumentDAO.makeImmutable`, taken to set the immutable flag to 1.
  - `Version.create`, modelled by `VersionNumbers.Next` and pinned by the test expectations;
  - `AbstractDocument.copyAttributes` and the copy constructor. The model assumes copyAttributes copies the descriptive fields, including version, file version and custom id. It assumes the copy constructor copies every modelled field but the comment, as the checkin rollback test observes. `Documents.CopyConstructed` is that copy, both for the checkin rollback and for the clone in copyToFolder.
  - the file-name de-duplication done by `DocumentDAO.store`;
  - `DocumentDAO.archive`, assumed to set the ARCHIVED status;
  - the template lookup of `setTemplate`, assumed to find the template. `AbstractDocument.setTemplate(null)` is taken to clear the template id as well, which is how `Documents.UpdatedDocument` leaves a record whose value object has no template;
  - `SearchEngine`.
- Text extraction and parsing become the parameter `failing`, the set of records whose text cannot be indexed. Extracted text, hit content and the page count are not modelled.
- A content-store write failure in checkin, create and copy becomes the flag `storeFails`.
- Clocks become the `now` parameter.
- The storing aspect of the run level becomes `EntityTable.storingEnabled`.
- The configuration becomes parameters: `jdbc.dbms`, `store.write`, `server.url` and `document.startversion`.
- The listeners are not modelled. Neither are the history records and their events, comments and dates, nor `validateTransaction`.
- Tags, notes, links, attributes and the ticket expiry are not modelled.
- The thread pool and the `synchronized` blocks are left out: every operation is sequential. storeVersionAsync writes the version row at once in the manager; its poll loop is modelled separately by `VersionLedger.AwaitDocumentRow`.
- The version table is a sequence of rows rather than a map from id to row. The deleteVersion downgrade depends on the listing order of `findByDocId`. `VersionDAO` is not part of this model: its `findByDocId` is taken to list the rows not deleted, newest first.
- DocumentManagement.DocumentManager.Create: requires a value object that is not an alias, as every caller in the manager passes one; copyToFolder sends aliases to createAlias.
- Operations on a record id that does not exist are not modelled: lock, checkout, unlock, makeImmutable, checkin, moveToFolder, rename, replaceFile and archiveDocuments. The source dereferences null there, so the model requires the record.
- DocumentManagement.DocumentManager.MoveToFolder: the SQL that queues the aliases is modelled by `MarkAliasesToIndex`. That equals the statement's effect on a store without nested aliases, an invariant the manager keeps.
- DocumentManagement.GetStore: the PersistenceException caught while the parents are looked up is not modelled.
- `replaceAlias`, `archiveFolder`, `createTicket`, `unprotect`, `promoteVersion`, `enforceFilesIntoFolderStore`, `merge`, `destroyDocument`, `parseDocument` and `countPages` are not modelled. They are converters, session checks, date arithmetic and raw SQL over an unseen schema.
- Executing queries through the Hibernate session is not modelled: `query`, `queryForList`, `queryForRowSet`, flush, merge, refresh, evict and the database metadata. The model builds the query strings and the effect of soft deletion on a map of rows.
- Persistence.SaveAttributes: the values of an attribute come from a parameter, because `ExtensibleObject` is not part of this model. An exception raised part-way through the loop, which the source swallows, is not modelled.
- Documents.RenamedDocument: stores the type of the trimmed name, `RenameType`, the corrected half of the rename finding. DocumentManagerImpl.java:1155 stores the extension of the untrimmed name instead. For the new name "a.pdf " the source stores the type "pdf " and the model stores "pdf". On names without surrounding blanks the two agree (`Documents.RenameTypeAgreesOnTrimmedName`).
- DocumentManagement.DocumentManager.Rename: stores the record built by `Documents.RenamedDocument`, so it differs from the source on the same input: for "a.pdf " the source stores the type "pdf " and the model stores "pdf".
- Persistence.InsertTopClause: for Oracle it uses `OracleRowLimit`, the corrected half of the ROWNUM finding. HibernatePersistentObjectDAO.java:524-527 inserts the condition at the first `WHERE` and again at the first `where`. For "select a from t where b in (SELECT c FROM u WHERE d)" and 10 rows, the source limits both the outer query and the sub-query, while the model limits the outer query only (`Persistence.OracleSubqueryExample`). When the query spells the keyword in one letter case only, the two agree (`Persistence.OracleAgreesOnSingleCase`).
- Letter case is folded for ASCII letters only.
- `String.replaceFirst` is modelled as plain-text replacement. That is exact for the patterns used, which hold no regular-expression metacharacters.

## Findings

| source | as written | input that shows it | evidently intended | confidence | as-written member | corrected member |
|---|---|---|---|---|---|---|
| logicaldoc-core/src/main/java/com/logicaldoc/core/document/DocumentManagerImpl.java:1152-1157 | rename tests the extension of the trimmed name but stores the extension of the untrimmed name as the type | new name "a.pdf ": the stored name is "a.pdf" but the type is "pdf " (lemma `Documents.RenameTypeKeepsTrailingBlank`) | the type is the extension of the trimmed name that is stored, "pdf" | not executed | Documents.RenameTypeAsWritten | Documents.RenameType |
| logicaldoc-core/src/main/java/com/logicaldoc/core/HibernatePersistentObjectDAO.java:522-527 | for Oracle, insertTopClause inserts the ROWNUM condition at the first `WHERE` and then again at the first `where` | "select a from t where b in (SELECT c FROM u WHERE d)" with 10 rows: both the outer query and the sub-query get `where ROWNUM <= 10 and ` (lemmas `Persistence.OracleAsWrittenLimitsSubquery`, `Persistence.OracleSubqueryExample`) | one condition, at the first where keyword of either letter case | not executed | Persistence.OracleRowLimitAsWritten | Persistence.OracleRowLimit |
