/**
 * The lifecycle coordinator: one object holding the record store, the
 * version table, the content store and the full-text index, and the
 * operations that move documents through their lifecycle. Each operation
 * takes its decisions on a record through the functions of `Documents`
 * and states the whole new state of the four stores.
 */
module DocumentManagement {
  import opened Common
  import opened VersionNumbers
  import opened Documents
  import opened VersionLedger

  /** How an operation without a result ended. */
  datatype Outcome = Done | Failed(error: Error)

  /** A picture of the four stores and the two id generators. */
  datatype Repository = Repository(
    documents: map<int, Document>,
    versions: seq<Version>,
    content: set<(int, Resource)>,
    index: set<int>,
    nextDocId: int,
    nextVersionId: int)

  /** The content-store entries of one file version of a document. */
  function FilesOf(content: set<(int, Resource)>, docId: int, fileVersion: VersionNumber): (r: set<(int, Resource)>)
    ensures r <= content
    ensures forall p :: p in r <==> p in content && p.0 == docId && p.1.fileVersion == fileVersion
  {
    set p | p in content && p.0 == docId && p.1.fileVersion == fileVersion
  }

  /** The main file of a document at a file version. */
  function MainFile(docId: int, fileVersion: VersionNumber): (int, Resource) {
    (docId, Resource(fileVersion, ""))
  }

  /** createAlias: the alias is stored under a fresh id; nothing else changes. */
  ghost predicate AliasEffect(before: Repository, after: Repository, d: Document, folder: int,
                              aliasType: Option<string>, user: User, created: Result<Document, Error>)
  {
    var alias := AliasFor(d, folder, aliasType, user).(id := before.nextDocId);
    created == Ok(alias)
    && after == before.(documents := before.documents[alias.id := alias], nextDocId := before.nextDocId + 1)
  }

  /**
   * create: a zero-byte file is refused; otherwise the record takes a fresh
   * id; when its file cannot be written the record is deleted again,
   * otherwise the file and the initial version are stored.
   */
  ghost predicate CreateEffect(before: Repository, after: Repository, vo: Document, fileSize: int, user: User,
                               start: VersionNumber, storeFails: bool, created: Result<Document, Error>)
  {
    if fileSize <= 0 then
      created == Err(IllegalArgument("Cannot create 0 bytes document")) && after == before
    else
      var id := before.nextDocId;
      var record := AttributesForCreation(vo, fileSize, user, start).(id := id);
      if storeFails then
        created == Err(StoreWriteFailure(id)) && after == before.(nextDocId := id + 1)
      else
        created == Ok(record)
        && after == before.(documents := before.documents[id := record], nextDocId := id + 1,
                            content := before.content + {MainFile(id, record.fileVersion)},
                            versions := before.versions + [NewVersion(record, Stored, true).1.(id := before.nextVersionId)],
                            nextVersionId := before.nextVersionId + 1)
  }

  /**
   * The last step of index: a parsing failure is recorded (SKIP when the
   * tenant skips on error and the failure is recorded) and reported;
   * otherwise the hit is added, the record is INDEXED and its aliases are
   * queued again.
   */
  ghost function Publishing(s: Repository, id: int, failing: set<int>, skipTenants: set<int>, recordErrors: bool)
    : (r: (Repository, Outcome))
    requires id in s.documents
    ensures r.0.documents.Keys == s.documents.Keys
    ensures r.1 == Done <==> id !in failing
    ensures r.1 == Done ==> r.0.documents[id].indexed == Indexed && r.0.index == s.index + {id}
    ensures r.1 != Done ==> r.1 == Failed(ParsingFailure(id)) && r.0.index == s.index
  {
    if id in failing then
      (s.(documents := if recordErrors then SkippedOnError(s.documents, id, skipTenants) else s.documents),
       Failed(ParsingFailure(id)))
    else
      (s.(documents := Published(s.documents, id), index := s.index + {id}), Done)
  }

  class DocumentManager {
    /** documentDAO: the records that are not deleted, by id. */
    var documents: map<int, Document>
    /** versionDAO: every version row ever written, in writing order. */
    var versions: seq<Version>
    /** The content store: the files kept for each document. */
    var content: set<(int, Resource)>
    /** The full-text index: the documents that have a hit. */
    var index: set<int>
    var nextDocId: int
    var nextVersionId: int
    /** The configured document.startversion. */
    const startVersion: VersionNumber

    ghost function State(): Repository
      reads this
    {
      Repository(documents, versions, content, index, nextDocId, nextVersionId)
    }

    ghost predicate Valid()
      reads this
    {
      (forall k :: k in documents ==> documents[k].id == k && 0 < k < nextDocId)
      && (forall k :: k in documents && documents[k].docRef.Some? ==> documents[k].docRef.value < nextDocId)
      && NoNestedAliases(documents)
      && UniqueIds(versions)
      && (forall i :: 0 <= i < |versions| ==> versions[i].id < nextVersionId)
      && 0 < nextDocId && 0 < nextVersionId
    }

    constructor (startVersion: VersionNumber)
      ensures Valid() && this.startVersion == startVersion
      ensures documents == map[] && versions == [] && content == {} && index == {}
    {
      this.startVersion := startVersion;
      documents := map[];
      versions := [];
      content := {};
      index := {};
      nextDocId := 1;
      nextVersionId := 1;
    }

    /** documentDAO.store of an existing record whose reference is unchanged. */
    method StoreDocument(d: Document)
      requires Valid() && d.id in documents && d.docRef == documents[d.id].docRef
      modifies this
      ensures Valid()
      ensures State() == old(State()).(documents := old(documents)[d.id := d])
    {
      StoreKeepsFlat(documents, d.id, d);
      documents := documents[d.id := d];
    }

    /** versionDAO.store of a new row: it receives the next version id. */
    method AppendVersion(v: Version)
      requires Valid()
      modifies this
      ensures Valid()
      ensures State() == old(State()).(versions := old(versions) + [v.(id := old(nextVersionId))],
                                       nextVersionId := old(nextVersionId) + 1)
    {
      versions := versions + [v.(id := nextVersionId)];
      nextVersionId := nextVersionId + 1;
    }

    /** markAliasesToIndex */
    method MarkAliases(ref: int)
      requires Valid()
      modifies this
      ensures Valid()
      ensures State() == old(State()).(documents := MarkAliasesToIndex(old(documents), ref))
    {
      MarkKeepsFlat(documents, ref);
      documents := MarkAliasesToIndex(documents, ref);
    }

    // ------------------------------------------------------------- locking

    /** lock(docId, status): the lock is taken on the record findDocument resolves `docId` to. */
    method Lock(docId: int, status: int, user: User) returns (outcome: Outcome)
      requires Valid() && Findable(documents, docId)
      modifies this
      ensures Valid()
      ensures var id := FindDocument(old(documents), docId);
        var r := LockDocument(old(documents[id]), status, user);
        if r.Err? then outcome == Failed(r.error) && State() == old(State())
        else outcome == Done && State() == old(State()).(documents := old(documents)[id := r.value])
    {
      var id := FindDocument(documents, docId);
      var locked := LockDocument(documents[id], status, user);
      if locked.Err? {
        return Failed(locked.error);
      }
      StoreDocument(locked.value);
      outcome := Done;
    }

    /** checkout(docId): a lock with the CHECKED_OUT status. */
    method Checkout(docId: int, user: User) returns (outcome: Outcome)
      requires Valid() && Findable(documents, docId)
      modifies this
      ensures Valid()
      ensures var id := FindDocument(old(documents), docId);
        var r := LockDocument(old(documents[id]), DocCheckedOut, user);
        if r.Err? then outcome == Failed(r.error) && State() == old(State())
        else outcome == Done && State() == old(State()).(documents := old(documents)[id := r.value])
    {
      outcome := Lock(docId, DocCheckedOut, user);
    }

    /** unlock(docId): the lock is released on the record findDocument resolves `docId` to. */
    method Unlock(docId: int, user: User) returns (outcome: Outcome)
      requires Valid() && Findable(documents, docId)
      modifies this
      ensures Valid()
      ensures var id := FindDocument(old(documents), docId);
        var r := UnlockDocument(old(documents[id]), user);
        if r.Err? then outcome == Failed(r.error) && State() == old(State())
        else outcome == Done && State() == old(State()).(documents := old(documents)[id := r.value])
    {
      var id := FindDocument(documents, docId);
      var unlocked := UnlockDocument(documents[id], user);
      if unlocked.Err? {
        return Failed(unlocked.error);
      }
      StoreDocument(unlocked.value);
      outcome := Done;
    }

    /** makeImmutable(docId) */
    method MakeImmutable(docId: int) returns (outcome: Outcome)
      requires Valid() && docId in documents
      modifies this
      ensures Valid()
      ensures var r := Documents.MakeImmutable(old(documents[docId]));
        if r.Err? then outcome == Failed(r.error) && State() == old(State())
        else outcome == Done && State() == old(State()).(documents := old(documents)[docId := r.value])
    {
      var frozen := Documents.MakeImmutable(documents[docId]);
      if frozen.Err? {
        return Failed(frozen.error);
      }
      StoreDocument(frozen.value);
      outcome := Done;
    }

    // ------------------------------------------------------------- checkin

    /** checkCustomIdUniquenessOnCheckin: the metadata carries a custom id another record of the tenant has. */
    predicate CheckinCustomIdTaken(docs: map<int, Document>, docId: int, vo: Option<Document>)
      requires docId in docs
    {
      vo.Some? && vo.value.customId.Some?
      && CustomIdTakenByOther(docs, vo.value.customId.value, docs[docId].tenantId, docId)
    }

    /**
     * checkin(docId, file, filename, release, docVO): the new file becomes
     * the next version; when it cannot be written the record is rolled
     * back and the failure reported.
     */
    method Checkin(docId: int, fileName: Option<string>, release: bool, vo: Option<Document>, fileSize: int,
                   comment: Option<string>, user: User, storeFails: bool) returns (outcome: Outcome)
      requires Valid() && Findable(documents, docId)
      modifies this
      ensures Valid()
      ensures fileName.None? ==> outcome == Failed(IllegalArgument("File name is mandatory")) && State() == old(State())
      ensures var d := old(documents[FindDocument(documents, docId)]);
        fileName.Some? && d.immutable != 0 ==> outcome == Done && State() == old(State())
      ensures var id := FindDocument(old(documents), docId); var d := old(documents[id]);
        fileName.Some? && d.immutable == 0 && CheckinCustomIdTaken(old(documents), id, vo) ==>
          outcome == Failed(DuplicatedCustomId) && State() == old(State())
      ensures var id := FindDocument(old(documents), docId); var d := old(documents[id]);
        fileName.Some? && d.immutable == 0 && !CheckinCustomIdTaken(old(documents), id, vo) && storeFails ==>
          outcome == Failed(StoreWriteFailure(id))
          && State() == old(State()).(documents := old(documents)[id := d.(lockUserId := None, extResId := None,
                                                                               comment := None)])
      ensures var id := FindDocument(old(documents), docId); var d := old(documents[id]);
        fileName.Some? && d.immutable == 0 && !CheckinCustomIdTaken(old(documents), id, vo) && !storeFails ==>
          var (checked, version) := CheckinDocument(d, fileName.value, release, vo, fileSize, comment, user);
          outcome == Done
          && State() == old(State()).(documents := old(documents)[id := checked],
                                      content := old(content) + {MainFile(id, checked.fileVersion)},
                                      versions := old(versions) + [version.(id := old(nextVersionId))],
                                      nextVersionId := old(nextVersionId) + 1)
    {
      if fileName.None? {
        return Failed(IllegalArgument("File name is mandatory"));
      }
      var id := FindDocument(documents, docId);
      var document := documents[id];
      if document.immutable != 0 {
        return Done;
      }
      var oldDocument := CopyConstructed(document.(comment := comment));
      if CheckinCustomIdTaken(documents, id, vo) {
        return Failed(DuplicatedCustomId);
      }
      var (checked, version) := CheckinDocument(document, fileName.value, release, vo, fileSize, comment, user);
      StoreDocument(checked);
      if storeFails {
        CheckinRollbackRestores(document, fileName.value, release, vo, fileSize, comment, user);
        StoreDocument(RollBackCheckin(checked, oldDocument));
        return Failed(StoreWriteFailure(id));
      }
      content := content + {MainFile(id, checked.fileVersion)};
      AppendVersion(version);
      outcome := Done;
    }

    // ------------------------------------------------------ update and move

    /** checkCustomIdUniquenesOnUpdate: the custom id of the value object belongs to another record of its tenant. */
    predicate UpdateCustomIdTaken(docs: map<int, Document>, docId: int, vo: Document) {
      vo.customId.Some? && CustomIdTakenByOther(docs, vo.customId.value, vo.tenantId, docId)
    }

    /** update(document, docVO) */
    method Update(docId: int, vo: Option<Document>, user: User) returns (outcome: Outcome)
      requires Valid()
      modifies this
      ensures Valid()
      ensures docId !in old(documents) ==>
        outcome == Failed(IllegalArgument("No document has been provided")) && State() == old(State())
      ensures docId in old(documents) && vo.None? ==>
        outcome == Failed(IllegalArgument("No value object has been provided")) && State() == old(State())
      ensures docId in old(documents) && vo.Some? && !MayAlter(old(documents[docId]), user) ==>
        outcome == Failed(ImmutableDocument) && State() == old(State())
      ensures docId in old(documents) && vo.Some? && MayAlter(old(documents[docId]), user)
              && UpdateCustomIdTaken(old(documents), docId, vo.value) ==>
        outcome == Failed(DuplicatedCustomId) && State() == old(State())
      ensures docId in old(documents) && vo.Some? && MayAlter(old(documents[docId]), user)
              && !UpdateCustomIdTaken(old(documents), docId, vo.value) ==>
        var d := old(documents[docId]);
        var (updated, version) := UpdatedDocument(d, vo.value);
        outcome == Done
        && State() == old(State()).(documents := MarkAliasesToIndex(old(documents)[docId := updated], docId),
                                    index := if d.locale != vo.value.locale then old(index) - {docId} else old(index),
                                    versions := old(versions) + [version.(id := old(nextVersionId))],
                                    nextVersionId := old(nextVersionId) + 1)
    {
      if docId !in documents {
        return Failed(IllegalArgument("No document has been provided"));
      }
      if vo.None? {
        return Failed(IllegalArgument("No value object has been provided"));
      }
      var document := documents[docId];
      if !MayAlter(document, user) {
        return Failed(ImmutableDocument);
      }
      if UpdateCustomIdTaken(documents, docId, vo.value) {
        return Failed(DuplicatedCustomId);
      }
      if document.locale != vo.value.locale {
        index := index - {docId};
      }
      var (updated, version) := UpdatedDocument(document, vo.value);
      StoreDocument(updated);
      AppendVersion(version);
      MarkAliases(docId);
      outcome := Done;
    }

    /** moveToFolder(doc, folder) */
    method MoveToFolder(docId: int, folder: int, user: User) returns (outcome: Outcome)
      requires Valid() && docId in documents
      modifies this
      ensures Valid()
      ensures var d := old(documents[docId]);
        folder == d.folder ==> outcome == Done && State() == old(State())
      ensures var d := old(documents[docId]);
        folder != d.folder && !MayAlter(d, user) ==> outcome == Failed(ImmutableDocument) && State() == old(State())
      ensures var d := old(documents[docId]);
        folder != d.folder && MayAlter(d, user) ==>
          var (moved, version) := MovedDocument(d, folder);
          var wasIndexed := d.indexed == Indexed;
          outcome == Done
          && State() == old(State()).(
               documents := (if wasIndexed then MarkAliasesToIndex(old(documents), docId) else old(documents))[docId := moved],
               index := if wasIndexed then old(index) - {docId} else old(index),
               versions := old(versions) + [version.(id := old(nextVersionId))],
               nextVersionId := old(nextVersionId) + 1)
    {
      var doc := documents[docId];
      if folder == doc.folder {
        return Done;
      }
      if !MayAlter(doc, user) {
        return Failed(ImmutableDocument);
      }
      var (moved, version) := MovedDocument(doc, folder);
      if doc.indexed == Indexed {
        index := index - {docId};
        MarkAliases(docId);
      }
      StoreDocument(moved);
      AppendVersion(version);
      outcome := Done;
    }

    /** rename(docId, newName) */
    method Rename(docId: int, newName: string, user: User) returns (outcome: Outcome)
      requires Valid() && docId in documents
      modifies this
      ensures Valid()
      ensures !MayAlter(old(documents[docId]), user) ==> outcome == Failed(ImmutableDocument) && State() == old(State())
      ensures MayAlter(old(documents[docId]), user) ==>
        var (renamed, version) := RenamedDocument(old(documents[docId]), newName);
        outcome == Done
        && State() == old(State()).(documents := MarkAliasesToIndex(old(documents)[docId := renamed], docId),
                                    versions := old(versions) + [version.(id := old(nextVersionId))],
                                    nextVersionId := old(nextVersionId) + 1)
    {
      var document := documents[docId];
      if !MayAlter(document, user) {
        return Failed(ImmutableDocument);
      }
      var (renamed, version) := RenamedDocument(document, newName);
      AppendVersion(version);
      StoreDocument(renamed);
      MarkAliases(docId);
      outcome := Done;
    }

    /** replaceFile(docId, fileVersion, newFile): the file of a version is swapped without a new version. */
    method ReplaceFile(docId: int, fileVersion: VersionNumber, fileSize: int)
      requires Valid() && Findable(documents, docId)
      modifies this
      ensures Valid()
      ensures var d := old(documents[FindDocument(documents, docId)]);
        !(d.immutable == 0 && d.status == DocUnlocked) ==> State() == old(State())
      ensures var id := FindDocument(old(documents), docId); var d := old(documents[id]);
        d.immutable == 0 && d.status == DocUnlocked ==>
          State() == old(State()).(
            content := old(content) - (FilesOf(old(content), id, fileVersion) - {MainFile(id, fileVersion)})
                       + {MainFile(id, fileVersion)},
            versions := ResizedVersions(old(versions), id, fileVersion, fileSize),
            documents := old(documents)[id := ReplacedFileDocument(d, fileSize)])
    {
      var id := FindDocument(documents, docId);
      var document := documents[id];
      if !(document.immutable == 0 && document.status == DocUnlocked) {
        return;
      }
      var main := MainFile(id, fileVersion);
      content := content - (FilesOf(content, id, fileVersion) - {main});
      content := content + {main};
      ghost var replaced := content;
      ghost var resized := ResizedVersions(old(versions), id, fileVersion, fileSize);
      var i := 0;
      while i < |versions|
        invariant 0 <= i <= |versions| == |old(versions)|
        invariant forall j :: 0 <= j < i ==> versions[j] == resized[j]
        invariant forall j :: i <= j < |versions| ==> versions[j] == old(versions)[j]
        invariant State() == old(State()).(content := replaced, versions := versions)
      {
        var version := versions[i];
        if version.docId == id && version.deleted == 0 && version.fileVersion == fileVersion {
          versions := versions[i := version.(fileSize := fileSize)];
        }
        i := i + 1;
      }
      assert versions == resized;
      assert forall j :: 0 <= j < |versions| ==> versions[j].id == old(versions)[j].id;
      StoreDocument(ReplacedFileDocument(document, fileSize));
    }

    // ------------------------------------------------------------- creation

    /** create(file, docVO): `storeFails` says the file could not be written to the content store. */
    method Create(vo: Document, fileSize: int, user: User, storeFails: bool) returns (created: Result<Document, Error>)
      requires Valid() && vo.docRef.None?
      modifies this
      ensures Valid()
      ensures CreateEffect(old(State()), State(), vo, fileSize, user, startVersion, storeFails, created)
    {
      if fileSize <= 0 {
        return Err(IllegalArgument("Cannot create 0 bytes document"));
      }
      var id := nextDocId;
      var record := AttributesForCreation(vo, fileSize, user, startVersion).(id := id);
      AddKeepsFlat(documents, id, record);
      documents := documents[id := record];
      nextDocId := nextDocId + 1;
      if storeFails {
        RemoveKeepsFlat(documents, id);
        documents := documents - {id};
        return Err(StoreWriteFailure(id));
      }
      content := content + {MainFile(id, record.fileVersion)};
      var (_, version) := NewVersion(record, Stored, true);
      AppendVersion(version);
      created := Ok(record);
    }

    /** createAlias(doc, folder, aliasType) */
    method CreateAlias(docId: int, folder: int, aliasType: Option<string>, user: User)
      returns (created: Result<Document, Error>)
      requires Valid()
      modifies this
      ensures Valid()
      ensures docId !in old(documents) ==>
        created == Err(IllegalArgument("No document has been provided")) && State() == old(State())
      ensures docId in old(documents) ==>
        AliasEffect(old(State()), State(), old(documents[docId]), folder, aliasType, user, created)
    {
      if docId !in documents {
        return Err(IllegalArgument("No document has been provided"));
      }
      var alias := AliasFor(documents[docId], folder, aliasType, user).(id := nextDocId);
      AliasKeepsStoreFlat(documents, docId, nextDocId, folder, aliasType, user);
      documents := documents[alias.id := alias];
      nextDocId := nextDocId + 1;
      created := Ok(alias);
    }

    /** copyToFolder(doc, folder): an alias is copied as a new alias, any other record as a fresh clone. */
    method CopyToFolder(docId: int, folder: int, user: User, storeFails: bool) returns (copied: Result<Document, Error>)
      requires Valid() && docId in documents
      modifies this
      ensures Valid()
      ensures var d := old(documents[docId]);
        IsAlias(d) ==> AliasEffect(old(State()), State(), d, folder, d.docRefType, user, copied)
      ensures var d := old(documents[docId]);
        !IsAlias(d) ==>
          CreateEffect(old(State()), State(), ClonedForCopy(d, folder), d.fileSize, user, startVersion, storeFails, copied)
    {
      var doc := documents[docId];
      if doc.docRef.Some? {
        copied := CreateAlias(docId, folder, doc.docRefType, user);
        return;
      }
      copied := Create(ClonedForCopy(doc, folder), doc.fileSize, user, storeFails);
    }

    // ------------------------------------------------------------- indexing

    /** deleteFromIndex(doc) */
    method DeleteFromIndex(docId: int)
      requires Valid() && docId in documents
      modifies this
      ensures Valid()
      ensures State() == old(State()).(
        index := old(index) - {docId},
        documents := MarkAliasesToIndex(old(documents)[docId := old(documents[docId]).(indexed := ToIndex)], docId))
    {
      index := index - {docId};
      StoreDocument(documents[docId].(indexed := ToIndex));
      MarkAliases(docId);
    }

    /** changeIndexingStatus(doc, status) */
    method ChangeIndexingStatus(docId: int, status: IndexState)
      requires Valid() && docId in documents
      modifies this
      ensures Valid()
      ensures var d := old(documents[docId]);
        IndexingChangeIsNoop(d.indexed, status) ==> State() == old(State())
      ensures var d := old(documents[docId]);
        !IndexingChangeIsNoop(d.indexed, status) ==>
          var wasIndexed := d.indexed == Indexed;
          State() == old(State()).(
            index := if wasIndexed then old(index) - {docId} else old(index),
            documents := (if wasIndexed then MarkAliasesToIndex(old(documents), docId) else old(documents))
                         [docId := d.(indexed := status)])
    {
      var doc := documents[docId];
      if IndexingChangeIsNoop(doc.indexed, status) {
        return;
      }
      if doc.indexed == Indexed {
        DeleteFromIndex(docId);
        MarkThenStore(old(documents), docId, doc.(indexed := ToIndex), doc.(indexed := status));
      }
      StoreDocument(doc.(indexed := status));
    }

    /** The common tail of index for one record. */
    method Publish(id: int, failing: set<int>, skipTenants: set<int>, recordErrors: bool) returns (outcome: Outcome)
      requires Valid() && id in documents
      modifies this
      ensures Valid()
      ensures (State(), outcome) == Publishing(old(State()), id, failing, skipTenants, recordErrors)
    {
      if id in failing {
        if recordErrors && documents[id].tenantId in skipTenants {
          StoreDocument(documents[id].(indexed := Skip));
        }
        return Failed(ParsingFailure(id));
      }
      index := index + {id};
      StoreDocument(documents[id].(indexed := Indexed));
      MarkAliases(id);
      outcome := Done;
    }

    /**
     * index(docId, content): `failing` holds the records whose text cannot
     * be extracted or added to the index, `skipTenants` the tenants that
     * skip a record on a parsing error, and `recordErrors` says whether a
     * history transaction was given.
     */
    method Index(docId: int, failing: set<int>, skipTenants: set<int>, recordErrors: bool) returns (outcome: Outcome)
      requires Valid()
      modifies this
      ensures Valid()
      ensures docId !in old(documents) ==> outcome == Failed(UnexistingDocument(docId)) && State() == old(State())
      ensures docId in old(documents) && !IsAlias(old(documents[docId])) ==>
        (State(), outcome) == Publishing(old(State()), docId, failing, skipTenants, recordErrors)
      ensures docId in old(documents) && IsAlias(old(documents[docId])) ==>
        var d := old(documents[docId]);
        var realId := d.docRef.value;
        if realId !in old(documents) then
          outcome == Done && State() == old(State()).(documents := old(documents)[docId := d.(indexed := Skip)])
        else if old(documents[realId]).indexed !in {ToIndex, ToIndexMetadata} then
          (State(), outcome) == Publishing(old(State()), docId, failing, skipTenants, recordErrors)
        else
          var (afterReal, realOutcome) := Publishing(old(State()), realId, failing, skipTenants, true);
          if realOutcome.Failed? then
            outcome == realOutcome
            && State() == afterReal.(documents := if recordErrors then SkippedOnError(afterReal.documents, docId, skipTenants)
                                                  else afterReal.documents)
          else
            (State(), outcome) == Publishing(afterReal, docId, failing, skipTenants, recordErrors)
    {
      if docId !in documents {
        return Failed(UnexistingDocument(docId));
      }
      var doc := documents[docId];
      if doc.docRef.Some? {
        var realId := doc.docRef.value;
        if realId !in documents {
          StoreDocument(doc.(indexed := Skip));
          return Done;
        }
        if documents[realId].indexed == ToIndex || documents[realId].indexed == ToIndexMetadata {
          var realOutcome := Publish(realId, failing, skipTenants, true);
          if realOutcome.Failed? {
            if recordErrors && documents[docId].tenantId in skipTenants {
              StoreDocument(documents[docId].(indexed := Skip));
            }
            return realOutcome;
          }
        }
      }
      outcome := Publish(docId, failing, skipTenants, recordErrors);
    }

    // ------------------------------------------------------------ archiving

    /**
     * archiveDocuments(docIds): every listed record the user may archive is
     * archived, and exactly those leave the index.
     */
    method ArchiveDocuments(ids: seq<int>, user: User, archivable: set<int>) returns (archived: seq<int>)
      requires Valid() && forall i :: 0 <= i < |ids| ==> ids[i] in documents
      modifies this
      ensures Valid()
      ensures archived == ArchivedAmong(old(documents), ids, user, archivable)
      ensures State() == old(State()).(documents := ArchiveAll(old(documents), archived),
                                       index := old(index) - set id | id in archived)
    {
      archived := [];
      var i := 0;
      while i < |ids|
        invariant 0 <= i <= |ids|
        invariant Valid()
        invariant archived == ArchivedAmong(old(documents), ids[..i], user, archivable)
        invariant State() == old(State()).(documents := ArchiveAll(old(documents), archived))
      {
        var id := ids[i];
        var doc := documents[id];
        ArchivedAmongStep(old(documents), ids, i, user, archivable);
        if MayArchive(user, doc.folder, archivable) {
          ArchiveAllStep(old(documents), archived, id);
          StoreDocument(doc.(status := DocArchived));
          archived := archived + [id];
        }
        i := i + 1;
      }
      assert ids[..i] == ids;
      index := index - set id | id in archived;
    }

    // ------------------------------------------------------------- versions

    /** versionDAO.delete(versionId) */
    method DeleteVersionRow(versionId: int)
      requires Valid()
      modifies this
      ensures Valid()
      ensures State() == old(State()).(versions := SoftDeleteVersion(old(versions), versionId))
    {
      SoftDeleteHides(versions, versionId, versionId);
      versions := SoftDeleteVersion(versions, versionId);
    }

    /** deleteVersion(versionId): returns the version that is current afterwards. */
    method DeleteVersion(versionId: int) returns (result: Result<Option<Version>, Error>)
      requires Valid()
      modifies this
      ensures Valid()
      ensures FindVersion(old(versions), versionId).None? ==>
        result == Err(UnexistingVersion(versionId)) && State() == old(State())
      ensures var found := FindVersion(old(versions), versionId);
        found.Some? && found.value.docId !in old(documents) ==>
          result == Err(UnexistingDocument(found.value.docId)) && State() == old(State())
      ensures var found := FindVersion(old(versions), versionId);
        found.Some? && found.value.docId in old(documents) && |VersionsOf(old(versions), found.value.docId)| == 1 ==>
          result == Ok(Some(VersionsOf(old(versions), found.value.docId)[0])) && State() == old(State())
      ensures var found := FindVersion(old(versions), versionId);
        found.Some? && found.value.docId in old(documents) && |VersionsOf(old(versions), found.value.docId)| != 1 ==>
          var v := found.value;
          var d := old(documents[v.docId]);
          var after := SoftDeleteVersion(old(versions), versionId);
          var last := FirstRemaining(VersionsOf(after, v.docId), versionId);
          result == Ok(last)
          && State() == old(State()).(
               versions := after,
               content := if SharesFileVersion(VersionsOf(old(versions), v.docId), versionId, v.fileVersion)
                          then old(content) else old(content) - FilesOf(old(content), v.docId, v.fileVersion),
               documents := if d.version == v.version && last.Some?
                            then old(documents)[v.docId := d.(version := last.value.version,
                                                              fileVersion := last.value.fileVersion)]
                            else old(documents))
    {
      var found := FindVersion(versions, versionId);
      if found.None? {
        return Err(UnexistingVersion(versionId));
      }
      var versionToDelete := found.value;
      var docId := versionToDelete.docId;
      if docId !in documents {
        return Err(UnexistingDocument(docId));
      }
      var document := documents[docId];
      var listing := VersionsOf(versions, docId);
      if |listing| == 1 {
        return Ok(Some(listing[0]));
      }
      var referenced := IsFileVersionShared(listing, versionId, versionToDelete.fileVersion);
      if !referenced {
        content := content - FilesOf(content, docId, versionToDelete.fileVersion);
      }
      DeleteVersionRow(versionId);
      listing := VersionsOf(versions, docId);
      var lastVersion := LastRemainingVersion(listing, versionId);
      if document.version == versionToDelete.version && lastVersion.Some? {
        StoreDocument(document.(version := lastVersion.value.version, fileVersion := lastVersion.value.fileVersion));
      }
      result := Ok(lastVersion);
    }
  }

  /**
   * getStore(folder): the store tier of the folder itself, else of the
   * closest parent that names one, else the configured store.write
   * (default 1). `parents` lists the ancestors from the root down.
   */
  method GetStore(folderStore: Option<int>, parents: seq<Option<int>>, configured: Option<int>) returns (store: int)
    ensures folderStore.Some? ==> store == folderStore.value
    ensures folderStore.None? && (forall i :: 0 <= i < |parents| ==> parents[i].None?) ==> store == configured.GetOr(1)
    ensures folderStore.None? && (exists i :: 0 <= i < |parents| && parents[i].Some?) ==>
      exists i :: 0 <= i < |parents| && parents[i] == Some(store) && forall j :: i < j < |parents| ==> parents[j].None?
  {
    store := configured.GetOr(1);
    if folderStore.Some? {
      return folderStore.value;
    }
    var i := |parents|;
    while i > 0
      invariant 0 <= i <= |parents|
      invariant forall j :: i <= j < |parents| ==> parents[j].None?
      invariant store == configured.GetOr(1)
    {
      i := i - 1;
      if parents[i].Some? {
        store := parents[i].value;
        return;
      }
    }
  }
}
