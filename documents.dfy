/**
 * The document record of the lifecycle coordinator and the pure decisions
 * its operations take on one record at a time: locking, the checkin
 * pipeline and its rollback, metadata update, move, rename, creation
 * defaults, aliases, copies and index-state changes.
 */
module Documents {
  import opened Common
  import opened Text
  import opened VersionNumbers

  /** Lock status codes. */
  const DocUnlocked: int := 0
  const DocCheckedOut: int := 1
  const DocLocked: int := 2
  const DocArchived: int := 3

  /** The type given to a file whose name has no usable extension. */
  const Unknown: string := "unknown"

  /** The tenant a freshly built record belongs to until told otherwise. */
  const DefaultTenant: int := 1

  /** Indexing status codes, in the order of their numeric values 0..3. */
  datatype IndexState = ToIndex | Indexed | Skip | ToIndexMetadata

  /** The events that create a version row. */
  datatype DocumentEvent = Stored | CheckedIn | Changed | Moved | Renamed

  /** The acting user carried by a history transaction. */
  datatype User = User(id: int, username: string, fullName: string, isAdmin: bool)

  /** A file kept in the content store for a document: its file version and a suffix ("" for the main file). */
  datatype Resource = Resource(fileVersion: VersionNumber, suffix: string)

  /** A version row: a snapshot of a document at a version; `deleted` is the soft-delete code. */
  datatype Version = Version(
    id: int,
    docId: int,
    version: VersionNumber,
    fileVersion: VersionNumber,
    fileSize: int,
    deleted: int,
    event: DocumentEvent)

  datatype Document = Document(
    id: int,
    tenantId: int,
    folder: int,
    fileName: string,
    fileType: string,
    fileSize: int,
    version: VersionNumber,
    fileVersion: VersionNumber,
    digest: Option<string>,
    status: int,
    lockUserId: Option<int>,
    lockUser: Option<string>,
    extResId: Option<string>,
    immutable: int,
    indexed: IndexState,
    docRef: Option<int>,
    docRefType: Option<string>,
    templateId: Option<int>,
    ocrTemplateId: Option<int>,
    ocrd: int,
    barcodeTemplateId: Option<int>,
    barcoded: int,
    stamped: int,
    signed: int,
    links: int,
    customId: Option<string>,
    comment: Option<string>,
    locale: string,
    publisher: string,
    publisherId: int,
    creator: string,
    creatorId: int)

  datatype Error =
    | IllegalArgument(message: string)
    | UnexistingDocument(docId: int)
    | UnexistingVersion(versionId: int)
    | AlreadyLocked(holder: Option<string>, requester: string)
    | NotLockHolder(holder: Option<string>, requester: string)
    | NullLockHolder
    | ImmutableDocument
    | DuplicatedCustomId
    | StoreWriteFailure(docId: int)
    | ParsingFailure(docId: int)

  predicate IsAlias(d: Document) {
    d.docRef.Some?
  }

  /** Immutable records may be altered only by an administrator, and only when flagged 1. */
  predicate MayAlter(d: Document, user: User) {
    d.immutable == 0 || (d.immutable == 1 && user.isAdmin)
  }

  /** Equal on every field except the three lock fields. */
  predicate SameButLock(a: Document, b: Document) {
    a == b.(status := a.status, lockUserId := a.lockUserId, lockUser := a.lockUser)
  }

  // ---------------------------------------------------------------- locking

  /**
   * lock(docId, status): a record already in `status` and held by the caller
   * is left alone; any other record that is not unlocked is refused; an
   * unlocked record is taken by the caller. The holder comparison is made on
   * the stored holder id, so a record in `status` without a holder raises a
   * null dereference.
   */
  function LockDocument(d: Document, status: int, user: User): (r: Result<Document, Error>)
    ensures d.status == status && d.lockUserId == Some(user.id) ==> r == Ok(d)
    ensures d.status == status && d.lockUserId.None? ==> r == Err(NullLockHolder)
    ensures d.status != status && d.status == DocUnlocked ==> r.Ok?
    ensures d.status != DocUnlocked && d.lockUserId != Some(user.id) ==> r.Err?
    ensures r.Err? && r.error != NullLockHolder ==> r.error == AlreadyLocked(d.lockUser, user.fullName)
    ensures r.Ok? ==> r.value.status == status && r.value.lockUserId == Some(user.id) && SameButLock(r.value, d)
    ensures r.Ok? && r.value != d ==> r.value == d.(status := status, lockUserId := Some(user.id),
                                                    lockUser := Some(user.fullName))
  {
    if d.status == status && d.lockUserId.None? then Err(NullLockHolder)
    else if d.status == status && d.lockUserId == Some(user.id) then Ok(d)
    else if d.status != DocUnlocked then Err(AlreadyLocked(d.lockUser, user.fullName))
    else Ok(d.(lockUserId := Some(user.id), lockUser := Some(user.fullName), status := status))
  }

  /** The record with its lock released. */
  function Released(d: Document): Document {
    d.(lockUserId := None, lockUser := None, extResId := None, status := DocUnlocked)
  }

  /**
   * unlock(docId): an administrator always releases (and clears the
   * immutable flag); anyone else finds a record without holder or already
   * unlocked untouched, is refused when someone else holds it, and releases
   * it when they hold it themselves.
   */
  function UnlockDocument(d: Document, user: User): (r: Result<Document, Error>)
    ensures r.Err? <==> !user.isAdmin && d.lockUserId.Some? && d.status != DocUnlocked && d.lockUserId != Some(user.id)
    ensures r.Err? ==> r.error == NotLockHolder(d.lockUser, user.fullName)
    ensures !user.isAdmin && (d.lockUserId.None? || d.status == DocUnlocked) ==> r == Ok(d)
    ensures r.Ok? && r.value != d ==> r.value.status == DocUnlocked && r.value.lockUserId.None? && r.value.lockUser.None?
    ensures r.Ok? ==> r.value.immutable == (if user.isAdmin then 0 else d.immutable)
    ensures r.Ok? ==> r.value.folder == d.folder && r.value.version == d.version && r.value.fileName == d.fileName
    ensures r.Ok? && r.value != d ==> r.value == d.(status := DocUnlocked, lockUserId := None, lockUser := None,
                                                    extResId := None, immutable := r.value.immutable)
  {
    if user.isAdmin then Ok(Released(d.(immutable := 0)))
    else if d.lockUserId.None? || d.status == DocUnlocked then Ok(d)
    else if d.lockUserId != Some(user.id) then Err(NotLockHolder(d.lockUser, user.fullName))
    else Ok(Released(d))
  }

  /** A lock taken on a free record is exclusive: another user is refused and told who holds it. */
  lemma LockExcludesOthers(d: Document, status: int, owner: User, other: User, s: int)
    requires d.status == DocUnlocked && status != DocUnlocked
    requires other.id != owner.id
    ensures LockDocument(d, status, owner).Ok?
    ensures LockDocument(LockDocument(d, status, owner).value, s, other)
         == Err(AlreadyLocked(Some(owner.fullName), other.fullName))
  {
  }

  /** Locking twice by the same user is the same as locking once. */
  lemma LockIdempotent(d: Document, status: int, user: User)
    requires LockDocument(d, status, user).Ok?
    ensures LockDocument(LockDocument(d, status, user).value, status, user) == LockDocument(d, status, user)
  {
  }

  /** The holder of a lock taken on a free record gets the record back unlocked with its lock fields cleared. */
  lemma UnlockUndoesLock(d: Document, status: int, user: User)
    requires d.status == DocUnlocked && d.lockUserId.None? && d.lockUser.None? && d.extResId.None?
    requires d.immutable == 0 && status != DocUnlocked
    ensures LockDocument(d, status, user).Ok?
    ensures UnlockDocument(LockDocument(d, status, user).value, user) == Ok(d)
  {
  }

  /** makeImmutable(docId): only a mutable record can be made immutable. */
  function MakeImmutable(d: Document): (r: Result<Document, Error>)
    ensures r.Ok? <==> d.immutable == 0
    ensures r.Ok? ==> r.value == d.(immutable := 1) && forall u: User :: !u.isAdmin ==> !MayAlter(r.value, u)
    ensures r.Err? ==> r.error == ImmutableDocument
  {
    if d.immutable == 0 then Ok(d.(immutable := 1)) else Err(ImmutableDocument)
  }

  // --------------------------------------------------------------- versions

  /**
   * Version.create: every event but STORED moves the document to the next
   * version name (a release bumps the major number); CHECKEDIN and STORED
   * also make it the file version. The row snapshots the document.
   */
  function NewVersion(d: Document, event: DocumentEvent, release: bool): (r: (Document, Version))
    ensures event == Stored ==> r.0.version == d.version
    ensures event != Stored ==> r.0.version == Next(d.version, release)
    ensures r.0.fileVersion == (if event == Stored || event == CheckedIn then r.0.version else d.fileVersion)
    ensures r.0 == d.(version := r.0.version, fileVersion := r.0.fileVersion)
    ensures r.1 == Version(0, d.id, r.0.version, r.0.fileVersion, d.fileSize, 0, event)
  {
    var name := if event == Stored then d.version else Next(d.version, release);
    var file := if event == Stored || event == CheckedIn then name else d.fileVersion;
    (d.(version := name, fileVersion := file), Version(0, d.id, name, file, d.fileSize, 0, event))
  }

  // ---------------------------------------------------------------- checkin

  /**
   * new Document(doc): the copy constructor (Document is not part of this
   * model) is taken to copy every modelled field but the comment. A checkin
   * keeps such a copy to roll back to; copyToFolder starts from one.
   */
  function CopyConstructed(d: Document): Document {
    d.(comment := None)
  }

  /** copyAttributes: the descriptive attributes of `source` overwrite those of `target`. */
  function CopyAttributes(target: Document, source: Document): Document {
    target.(fileName := source.fileName, fileType := source.fileType, folder := source.folder,
            fileSize := source.fileSize, version := source.version, fileVersion := source.fileVersion,
            digest := source.digest, locale := source.locale, templateId := source.templateId,
            customId := source.customId, publisher := source.publisher, publisherId := source.publisherId,
            creator := source.creator, creatorId := source.creatorId)
  }

  /** Applies the metadata of a checkin, keeping the original folder, version and file version. */
  function ApplyCheckinMetadata(d: Document, vo: Option<Document>, fileName: string): Document {
    match vo
    case None => d
    case Some(v) =>
      CopyAttributes(d, v).(folder := d.folder, version := d.version, fileVersion := d.fileVersion,
                            fileName := if fileName != "" then fileName else d.fileName)
  }

  /** Everything derived from the old file is dropped; indexing restarts unless it is skipped. */
  function ResetDerivedState(d: Document): Document {
    d.(stamped := 0, signed := 0, ocrd := 0, barcoded := 0,
       indexed := if d.indexed == Skip then Skip else ToIndex)
  }

  /** The record as a checkin stores it, before the new file is written, with the version row it creates. */
  function CheckinDocument(d: Document, fileName: string, release: bool, vo: Option<Document>,
                           fileSize: int, comment: Option<string>, user: User): (r: (Document, Version))
    ensures r.0.id == d.id && r.0.docRef == d.docRef && r.0.tenantId == d.tenantId && r.0.immutable == d.immutable
    ensures r.0.folder == d.folder
    ensures r.0.version == Next(d.version, release) && r.0.fileVersion == r.0.version
    ensures r.0.fileName == fileName && r.0.fileType == Extension(fileName) && r.0.fileSize == fileSize
    ensures r.0.status == DocUnlocked && r.0.lockUserId.None? && r.0.digest.None? && r.0.extResId.None?
    ensures r.0.stamped == 0 && r.0.signed == 0 && r.0.ocrd == 0 && r.0.barcoded == 0
    ensures r.0.indexed == (if d.indexed == Skip then Skip else ToIndex)
    ensures r.0.customId == (if vo.Some? then vo.value.customId else d.customId)
    ensures r.0.comment == comment && r.0.publisher == user.username && r.0.publisherId == user.id
    ensures r.1.docId == d.id && r.1.version == r.0.version && r.1.fileVersion == r.0.fileVersion
    ensures r.1.fileSize == fileSize && r.1.event == CheckedIn
  {
    var withComment := d.(comment := comment);
    var applied := ApplyCheckinMetadata(withComment, vo, fileName);
    var reset := ResetDerivedState(applied);
    var stored := reset.(fileName := fileName, fileType := Extension(fileName), publisher := user.username,
                         publisherId := user.id, status := DocUnlocked, lockUserId := None, folder := d.folder,
                         digest := None, fileSize := fileSize, extResId := None);
    NewVersion(stored, CheckedIn, release)
  }

  /** The rollback after the new file could not be written. */
  function RollBackCheckin(current: Document, snapshot: Document): Document {
    CopyAttributes(current, snapshot).(ocrd := snapshot.ocrd, ocrTemplateId := snapshot.ocrTemplateId,
      barcoded := snapshot.barcoded, barcodeTemplateId := snapshot.barcodeTemplateId,
      indexed := snapshot.indexed, customId := snapshot.customId, status := snapshot.status,
      stamped := snapshot.stamped, signed := snapshot.signed, comment := snapshot.comment)
  }

  /**
   * A checkin whose file cannot be written leaves the record as it was,
   * except for the three things the rollback does not restore: the lock
   * holder id and the external resource id stay cleared, and the comment
   * is dropped because the snapshot does not carry it.
   */
  lemma CheckinRollbackRestores(d: Document, fileName: string, release: bool, vo: Option<Document>,
                                fileSize: int, comment: Option<string>, user: User)
    ensures RollBackCheckin(CheckinDocument(d, fileName, release, vo, fileSize, comment, user).0,
                            CopyConstructed(d.(comment := comment)))
         == d.(lockUserId := None, extResId := None, comment := None)
  {
  }

  /** The checked-in record always carries the name given to the checkin, even when metadata came with it. */
  lemma CheckinNameIsTheArgument(d: Document, release: bool, vo: Document, fileSize: int,
                                 comment: Option<string>, user: User)
    ensures CheckinDocument(d, "", release, Some(vo), fileSize, comment, user).0.fileName == ""
    ensures CheckinDocument(d, "", release, Some(vo), fileSize, comment, user).0.fileType == ""
  {
  }

  // ----------------------------------------------------------------- update

  /**
   * setOcrTemplate / setBarcodeTemplate: the recognised flag of the value
   * object is kept unless one of the two templates is missing or they differ.
   */
  function TemplateFlagKept(current: Option<int>, requested: Option<int>): bool {
    !((current.None? && requested.Some?) || (current.Some? && requested.None?)
      || (current.None? && requested.None?) || current.value != requested.value)
  }

  /** The flag is kept exactly when the record already had that very template. */
  lemma TemplateFlagKeptIffSameTemplate(current: Option<int>, requested: Option<int>)
    ensures TemplateFlagKept(current, requested) <==> current.Some? && current == requested
  {
  }

  /** The record after update(document, docVO) took the value object, without its index side effects. */
  function UpdatedDocument(d: Document, vo: Document): (r: (Document, Version))
    ensures r.0 == d.(customId := r.0.customId, indexed := ToIndex, locale := vo.locale, fileName := r.0.fileName,
                      templateId := vo.templateId, ocrTemplateId := vo.ocrTemplateId, ocrd := r.0.ocrd,
                      barcodeTemplateId := vo.barcodeTemplateId, barcoded := r.0.barcoded,
                      version := Next(d.version, false))
    ensures r.0.id == d.id && r.0.docRef == d.docRef && r.0.folder == d.folder && r.0.tenantId == d.tenantId
    ensures r.0.status == d.status && r.0.lockUserId == d.lockUserId && r.0.immutable == d.immutable
    ensures r.0.indexed == ToIndex && r.0.locale == vo.locale
    ensures r.0.version == Next(d.version, false) && r.0.fileVersion == d.fileVersion
    ensures r.0.fileName == (if vo.fileName != "" then vo.fileName else d.fileName)
    ensures r.0.customId == (if vo.customId.Some? then vo.customId else d.customId)
    ensures r.0.templateId == vo.templateId
    ensures r.0.ocrTemplateId == vo.ocrTemplateId && r.0.barcodeTemplateId == vo.barcodeTemplateId
    ensures r.0.ocrd == (if vo.templateId.Some? && d.ocrTemplateId.Some? && d.ocrTemplateId == vo.ocrTemplateId
                         then vo.ocrd else 0)
    ensures r.0.barcoded == (if d.barcodeTemplateId.Some? && d.barcodeTemplateId == vo.barcodeTemplateId
                             then vo.barcoded else 0)
    ensures r.1.docId == d.id && r.1.version == r.0.version && r.1.event == Changed
  {
    var withId := d.(customId := if vo.customId.Some? then vo.customId else d.customId,
                     indexed := ToIndex, locale := vo.locale);
    var named := if vo.fileName != "" && withId.fileName != vo.fileName then withId.(fileName := vo.fileName) else withId;
    var templated := if vo.templateId.Some? then named.(templateId := vo.templateId)
                     else named.(templateId := None, ocrTemplateId := None, ocrd := 0);
    var ocr := templated.(ocrd := if TemplateFlagKept(templated.ocrTemplateId, vo.ocrTemplateId) then vo.ocrd else 0,
                          ocrTemplateId := vo.ocrTemplateId);
    var barcode := ocr.(barcoded := if TemplateFlagKept(ocr.barcodeTemplateId, vo.barcodeTemplateId) then vo.barcoded else 0,
                        barcodeTemplateId := vo.barcodeTemplateId);
    TemplateFlagKeptIffSameTemplate(templated.ocrTemplateId, vo.ocrTemplateId);
    TemplateFlagKeptIffSameTemplate(ocr.barcodeTemplateId, vo.barcodeTemplateId);
    NewVersion(barcode, Changed, false)
  }

  // ------------------------------------------------------------ move/rename

  /** moveToFolder: the record changes folder, an indexed record must be indexed again, a minor version is cut. */
  function MovedDocument(d: Document, folder: int): (r: (Document, Version))
    ensures r.0 == d.(folder := folder, indexed := r.0.indexed, version := Next(d.version, false))
    ensures r.0.indexed == (if d.indexed == Indexed then ToIndex else d.indexed)
    ensures r.1.docId == d.id && r.1.version == r.0.version && r.1.event == Moved
  {
    var moved := d.(folder := folder, indexed := if d.indexed == Indexed then ToIndex else d.indexed);
    NewVersion(moved, Moved, false)
  }

  /** rename as written: the type is read from the name before trimming. */
  function RenameTypeAsWritten(newName: string): string {
    if Extension(Trim(newName)) != "" then Extension(newName) else Unknown
  }

  /** rename as intended: the type is the extension of the trimmed name that is stored. */
  function RenameType(newName: string): (r: string)
    ensures r == Unknown || (r == Extension(Trim(newName)) && r != "" && r[|r| - 1] > ' ')
  {
    var t := Trim(newName);
    var e := Extension(t);
    ExtensionIsSuffix(t);
    assert e != "" ==> e[|e| - 1] == t[|e| - 1 + |t| - |e|];
    if e != "" then e else Unknown
  }

  /** Without blanks around the new name the type as written is the intended one. */
  lemma RenameTypeAgreesOnTrimmedName(newName: string)
    requires Trim(newName) == newName
    ensures RenameTypeAsWritten(newName) == RenameType(newName)
  {
  }

  /** A trailing blank in the new name ends up in the type as written. */
  lemma RenameTypeKeepsTrailingBlank()
    ensures Trim("a.pdf ") == "a.pdf"
    ensures RenameTypeAsWritten("a.pdf ") == "pdf "
    ensures RenameType("a.pdf ") == "pdf"
  {
    var s := "a.pdf ";
    assert s[1] == '.' && s[0] != '.' && s[2] != '.' && s[3] != '.' && s[4] != '.' && s[5] != '.';
    assert LastIndexOf(s, '.') == Some(1);
    var t := "a.pdf";
    assert t[1] == '.' && t[0] != '.' && t[2] != '.' && t[3] != '.' && t[4] != '.';
    assert LastIndexOf(t, '.') == Some(1);
    assert TrimStart("a.pdf ") == "a.pdf ";
    assert TrimEnd("a.pdf") == "a.pdf";
  }

  /** rename: the stored name is trimmed and the type matches its extension. */
  function RenamedDocument(d: Document, newName: string): (r: (Document, Version))
    ensures r.0.fileName == Trim(newName)
    ensures r.0.fileType == (if Extension(r.0.fileName) != "" then Extension(r.0.fileName) else Unknown)
    ensures r.0 == d.(fileName := r.0.fileName, fileType := r.0.fileType, indexed := ToIndex,
                      version := Next(d.version, false))
    ensures r.1.docId == d.id && r.1.version == r.0.version && r.1.event == Renamed
  {
    var renamed := d.(fileName := Trim(newName), fileType := RenameType(newName), indexed := ToIndex);
    NewVersion(renamed, Renamed, false)
  }

  // --------------------------------------------------------------- creation

  /** The type of a new file: the lower-cased extension when a dot follows the first character. */
  function CreationType(fileName: string): (r: string)
    ensures r == Unknown || r == ToLower(Extension(fileName))
    ensures r != Unknown ==> exists i :: 0 < i < |fileName| && fileName[i] == '.'
  {
    match LastIndexOf(fileName, '.')
    case Some(i) => if i > 0 then ToLower(Extension(fileName)) else Unknown
    case None => Unknown
  }

  /** setAtributesForCreation: the defaults a new record receives before it is first stored. */
  function AttributesForCreation(vo: Document, fileSize: int, user: User, start: VersionNumber): (r: Document)
    ensures r.status == DocUnlocked && r.id == 0
    ensures r.version == start && r.fileVersion == start && r.fileSize == fileSize
    ensures r.fileType == CreationType(vo.fileName)
    ensures r.publisher == (if vo.publisher != "" then vo.publisher else user.username)
    ensures r.publisherId == (if vo.publisherId != 0 then vo.publisherId else user.id)
    ensures r.creator == (if vo.creator != "" then vo.creator else user.username)
    ensures r.creatorId == (if vo.creatorId != 0 then vo.creatorId else user.id)
    ensures r == vo.(status := DocUnlocked, id := 0, version := start, fileVersion := start, fileSize := fileSize,
                     fileType := r.fileType, publisher := r.publisher, publisherId := r.publisherId,
                     creator := r.creator, creatorId := r.creatorId)
  {
    vo.(publisher := if vo.publisher != "" then vo.publisher else user.username,
        publisherId := if vo.publisherId != 0 then vo.publisherId else user.id,
        creator := if vo.creator != "" then vo.creator else user.username,
        creatorId := if vo.creatorId != 0 then vo.creatorId else user.id,
        status := DocUnlocked, fileType := CreationType(vo.fileName),
        version := start, fileVersion := start, fileSize := fileSize, id := 0)
  }

  /** copyToFolder: the clone of a plain document, before it is created in the target folder. */
  function ClonedForCopy(d: Document, folder: int): (r: Document)
    ensures r.id == 0 && r.folder == folder && r.docRef == d.docRef && r.comment.None?
    ensures r.indexed == (if d.indexed == Indexed then ToIndex else d.indexed)
    ensures r.stamped == 0 && r.signed == 0 && r.links == 0 && r.ocrd == 0 && r.barcoded == 0
    ensures r.fileName == d.fileName && r.customId == d.customId && r.fileVersion == d.fileVersion
    ensures r == CopyConstructed(d).(id := 0, folder := folder, indexed := r.indexed, stamped := 0, signed := 0,
                                     links := 0, ocrd := 0, barcoded := 0)
  {
    var cloned := CopyConstructed(d).(id := 0);
    var placed := if d.folder != folder then cloned.(folder := folder) else cloned;
    placed.(indexed := if placed.indexed == Indexed then ToIndex else placed.indexed,
            stamped := 0, signed := 0, links := 0, ocrd := 0, barcoded := 0)
  }

  // ---------------------------------------------------------------- aliases

  /** The record built by new Document(): nothing set yet. */
  function BlankDocument(): Document {
    Document(0, DefaultTenant, 0, "", "", 0, VersionNumber(1, 0), VersionNumber(1, 0), None, DocUnlocked,
             None, None, None, 0, ToIndex, None, None, None, None, 0, None, 0, 0, 0, 0, None, None, "",
             "", 0, "", 0)
  }

  /** The document an alias of `d` must point at: `d` itself, or what `d` already points at. */
  function AliasTarget(d: Document): int {
    if d.docRef.Some? then d.docRef.value else d.id
  }

  /**
   * createAlias: a minimal record in `folder` sharing the version data of
   * `d` and pointing at its underlying document; a non-empty alias type
   * replaces the extension by the lower-cased extension of that type.
   */
  function AliasFor(d: Document, folder: int, aliasType: Option<string>, user: User): (r: Document)
    ensures r.docRef == Some(AliasTarget(d)) && r.docRefType == aliasType
    ensures r.folder == folder && r.status == DocUnlocked && r.id == 0
    ensures r.version == d.version && r.fileVersion == d.fileVersion && r.fileSize == d.fileSize
    ensures aliasType.None? || aliasType == Some("") ==> r.fileName == d.fileName
    ensures aliasType.None? || aliasType == Some("") ==>
              r.fileType == (if LastIndexOf(d.fileName, '.').Some? && LastIndexOf(d.fileName, '.').value > 0
                             then Extension(d.fileName) else Unknown)
    ensures r.publisher == user.username && r.publisherId == user.id
    ensures r.creator == user.username && r.creatorId == user.id
    ensures aliasType.Some? && aliasType.value != "" ==>
              r.fileType == ToLower(Extension(aliasType.value))
              && r.fileName == BaseName(d.fileName) + "." + r.fileType
  {
    var base := BlankDocument().(folder := folder, fileName := d.fileName, fileSize := d.fileSize,
                                 version := d.version, fileVersion := d.fileVersion);
    var dotType := match LastIndexOf(d.fileName, '.')
                   case Some(i) => if i > 0 then Extension(d.fileName) else Unknown
                   case None => Unknown;
    var typed := if aliasType.Some? && aliasType.value != "" then
                   var t := ToLower(Extension(aliasType.value));
                   base.(fileName := BaseName(d.fileName) + "." + t, fileType := t)
                 else base.(fileType := dotType);
    typed.(publisher := user.username, publisherId := user.id, creator := user.username,
           creatorId := user.id, status := DocUnlocked, docRef := Some(AliasTarget(d)), docRefType := aliasType)
  }

  /** Every alias whose target is in the store points at a record that is not itself an alias. */
  ghost predicate NoNestedAliases(docs: map<int, Document>) {
    forall k :: k in docs && docs[k].docRef.Some? && docs[k].docRef.value in docs ==>
      docs[docs[k].docRef.value].docRef.None?
  }

  /** The record `docId` names can be found: it exists and, when it is an alias, so does its target. */
  predicate Findable(docs: map<int, Document>, docId: int) {
    docId in docs && (docs[docId].docRef.None? || docs[docId].docRef.value in docs)
  }

  /** documentDAO.findDocument: the id of the record itself, or of the record an alias points at. */
  function FindDocument(docs: map<int, Document>, docId: int): (r: int)
    requires Findable(docs, docId)
    ensures r in docs
    ensures docs[docId].docRef.None? ==> r == docId
    ensures docs[docId].docRef.Some? ==> r == docs[docId].docRef.value
  {
    if docs[docId].docRef.Some? then docs[docId].docRef.value else docId
  }

  /** In a store without nested aliases the record found is never an alias, so finding it again finds itself. */
  lemma FindDocumentLandsOnDocument(docs: map<int, Document>, docId: int)
    requires NoNestedAliases(docs) && Findable(docs, docId)
    ensures docs[FindDocument(docs, docId)].docRef.None?
    ensures Findable(docs, FindDocument(docs, docId))
    ensures FindDocument(docs, FindDocument(docs, docId)) == FindDocument(docs, docId)
  {
  }

  /** Adding an alias of any record of a flat store keeps it flat: alias chains never nest. */
  lemma {:induction false} AliasKeepsStoreFlat(docs: map<int, Document>, docId: int, newId: int,
                                              folder: int, aliasType: Option<string>, user: User)
    requires NoNestedAliases(docs)
    requires docId in docs && docs[docId].id == docId && newId !in docs
    requires forall k :: k in docs ==> docs[k].docRef != Some(newId)
    ensures NoNestedAliases(docs[newId := AliasFor(docs[docId], folder, aliasType, user).(id := newId)])
  {
    var d := docs[docId];
    var alias := AliasFor(d, folder, aliasType, user).(id := newId);
    var docs' := docs[newId := alias];
    forall k | k in docs' && docs'[k].docRef.Some? && docs'[k].docRef.value in docs'
      ensures docs'[docs'[k].docRef.value].docRef.None?
    {
      if k == newId {
        var t := AliasTarget(d);
        if d.docRef.Some? {
          assert docs[docId].docRef.value in docs;
        }
        assert docs'[t] == docs[t];
      } else {
        assert docs'[k] == docs[k];
      }
    }
  }

  /** Storing a record whose reference is unchanged keeps the store flat. */
  lemma StoreKeepsFlat(docs: map<int, Document>, k: int, d: Document)
    requires NoNestedAliases(docs) && k in docs && d.docRef == docs[k].docRef
    ensures NoNestedAliases(docs[k := d])
  {
  }

  /** Adding a record that is not an alias, under an id nobody references, keeps the store flat. */
  lemma AddKeepsFlat(docs: map<int, Document>, k: int, d: Document)
    requires NoNestedAliases(docs) && d.docRef.None?
    ensures NoNestedAliases(docs[k := d])
  {
  }

  /** Dropping a record keeps the store flat; its aliases merely lose their target. */
  lemma RemoveKeepsFlat(docs: map<int, Document>, k: int)
    requires NoNestedAliases(docs)
    ensures NoNestedAliases(docs - {k})
  {
  }

  /**
   * findByCustomId found a record of the tenant with that custom id, other
   * than `selfId`. The source looks up one record by custom id and compares
   * its id; this asks whether any record other than `selfId` has it. The two
   * differ only when two records of a tenant already share a custom id.
   */
  predicate CustomIdTakenByOther(docs: map<int, Document>, customId: string, tenantId: int, selfId: int) {
    exists k :: k in docs && docs[k].customId == Some(customId) && docs[k].tenantId == tenantId && k != selfId
  }

  /** replaceFile: the record after its file was replaced; the derived state of the old file is dropped. */
  function ReplacedFileDocument(d: Document, fileSize: int): (r: Document)
    ensures r == d.(fileSize := fileSize, indexed := r.indexed, ocrd := 0, barcoded := 0, signed := 0, stamped := 0)
    ensures r.indexed == (if d.indexed == Skip then Skip else ToIndex)
  {
    var sized := d.(fileSize := fileSize);
    var queued := if sized.indexed != Skip then sized.(indexed := ToIndex) else sized;
    queued.(ocrd := 0, barcoded := 0, signed := 0, stamped := 0)
  }

  /** checkDocumentRenamed: update records a rename when the value object carries another name. */
  predicate RenameRecorded(d: Document, vo: Document) {
    d.fileName != vo.fileName
  }

  /** A rename is always recorded when update changes the name; with an empty name it is recorded though the name stays. */
  lemma RenameRecordedWhenNameChanges(d: Document, vo: Document)
    ensures UpdatedDocument(d, vo).0.fileName != d.fileName ==> RenameRecorded(d, vo)
    ensures RenameRecorded(d, vo) && vo.fileName != "" ==> UpdatedDocument(d, vo).0.fileName != d.fileName
    ensures RenameRecorded(d, vo) && vo.fileName == "" ==> UpdatedDocument(d, vo).0.fileName == d.fileName
  {
  }

  // --------------------------------------------------------------- indexing

  /** changeIndexingStatus leaves the record alone when asked for the state it is already in, unless that is INDEXED. */
  function IndexingChangeIsNoop(current: IndexState, requested: IndexState): (r: bool)
    ensures r <==> current == requested && requested != Indexed
  {
    (requested == Skip && current == Skip)
    || (requested == ToIndex && current == ToIndex)
    || (requested == ToIndexMetadata && current == ToIndexMetadata)
  }

  /** markAliasesToIndex(ref): every other record pointing at `ref` must be indexed again. */
  function MarkAliasesToIndex(docs: map<int, Document>, ref: int): (r: map<int, Document>)
    ensures r.Keys == docs.Keys
    ensures forall k :: k in docs ==>
      r[k] == (if docs[k].docRef == Some(ref) && k != ref then docs[k].(indexed := ToIndex) else docs[k])
  {
    map k | k in docs :: if docs[k].docRef == Some(ref) && k != ref then docs[k].(indexed := ToIndex) else docs[k]
  }

  /** Storing the referenced record before or after marking its aliases makes no difference. */
  lemma MarkThenStore(docs: map<int, Document>, ref: int, first: Document, last: Document)
    ensures MarkAliasesToIndex(docs[ref := first], ref)[ref := last] == MarkAliasesToIndex(docs, ref)[ref := last]
  {
    var a := MarkAliasesToIndex(docs[ref := first], ref)[ref := last];
    var b := MarkAliasesToIndex(docs, ref)[ref := last];
    assert a.Keys == b.Keys;
    forall k | k in a.Keys ensures a[k] == b[k] {
    }
  }

  /** Marking aliases leaves every reference as it was. */
  lemma MarkKeepsFlat(docs: map<int, Document>, ref: int)
    requires NoNestedAliases(docs)
    ensures NoNestedAliases(MarkAliasesToIndex(docs, ref))
  {
  }

  /** A successful index: the record is INDEXED and its aliases, not itself, are queued again. */
  function Published(docs: map<int, Document>, id: int): (r: map<int, Document>)
    requires id in docs
    ensures r.Keys == docs.Keys && r[id] == docs[id].(indexed := Indexed)
    ensures forall k :: k in docs && k != id ==>
      r[k] == (if docs[k].docRef == Some(id) then docs[k].(indexed := ToIndex) else docs[k])
  {
    MarkAliasesToIndex(docs[id := docs[id].(indexed := Indexed)], id)
  }

  /** recordIndexingError: a parsing failure sets SKIP when the tenant asks to skip on error. */
  function SkippedOnError(docs: map<int, Document>, id: int, skipTenants: set<int>): (r: map<int, Document>)
    requires id in docs
    ensures r == docs[id := docs[id].(indexed := if docs[id].tenantId in skipTenants then Skip else docs[id].indexed)]
  {
    if docs[id].tenantId in skipTenants then docs[id := docs[id].(indexed := Skip)] else docs
  }

  // -------------------------------------------------------------- archiving

  /** archiveDocuments: who may archive a record of a given folder. */
  predicate MayArchive(user: User, folder: int, archivable: set<int>) {
    user.isAdmin || user.username == "_retention" || folder in archivable
  }

  /** The ids, in iteration order, that archiveDocuments archives. */
  function ArchivedAmong(docs: map<int, Document>, ids: seq<int>, user: User, archivable: set<int>): (r: seq<int>)
    requires forall i :: 0 <= i < |ids| ==> ids[i] in docs
  {
    if ids == [] then []
    else
      var init := ids[..|ids| - 1];
      var id := ids[|ids| - 1];
      ArchivedAmong(docs, init, user, archivable) + (if MayArchive(user, docs[id].folder, archivable) then [id] else [])
  }

  /** An id is archived exactly when it was asked for and the user may archive in its folder. */
  lemma {:induction false} ArchivedAmongIff(docs: map<int, Document>, ids: seq<int>, user: User, archivable: set<int>)
    requires forall i :: 0 <= i < |ids| ==> ids[i] in docs
    ensures forall id :: id in ArchivedAmong(docs, ids, user, archivable) <==>
              id in ids && MayArchive(user, docs[id].folder, archivable)
  {
    if ids != [] {
      var init := ids[..|ids| - 1];
      ArchivedAmongIff(docs, init, user, archivable);
      assert ids == init + [ids[|ids| - 1]];
    }
  }

  /** One more id handled by the archiving loop. */
  lemma ArchivedAmongStep(docs: map<int, Document>, ids: seq<int>, i: int, user: User, archivable: set<int>)
    requires 0 <= i < |ids| && forall j :: 0 <= j < |ids| ==> ids[j] in docs
    ensures ArchivedAmong(docs, ids[..i + 1], user, archivable)
         == ArchivedAmong(docs, ids[..i], user, archivable)
            + (if MayArchive(user, docs[ids[i]].folder, archivable) then [ids[i]] else [])
  {
    assert ids[..i + 1][..i] == ids[..i];
  }

  /** The store after the listed records were archived. */
  function ArchiveAll(docs: map<int, Document>, ids: seq<int>): (r: map<int, Document>)
    ensures r.Keys == docs.Keys
    ensures forall k :: k in docs ==> r[k] == (if k in ids then docs[k].(status := DocArchived) else docs[k])
  {
    map k | k in docs :: if k in ids then docs[k].(status := DocArchived) else docs[k]
  }

  /** Archiving one more record. */
  lemma ArchiveAllStep(docs: map<int, Document>, ids: seq<int>, id: int)
    requires id in docs
    ensures ArchiveAll(docs, ids + [id]) == ArchiveAll(docs, ids)[id := docs[id].(status := DocArchived)]
  {
    var a := ArchiveAll(docs, ids + [id]);
    var b := ArchiveAll(docs, ids)[id := docs[id].(status := DocArchived)];
    assert a.Keys == b.Keys;
    forall k | k in a.Keys ensures a[k] == b[k] {
      assert k in ids + [id] <==> k in ids || k == id;
    }
  }

  // ---------------------------------------------------------------- tickets

  datatype TicketType = Download | PswRecovery | View

  /** The path of the ticket servlet that follows the server prefix. */
  function TicketPath(ticketType: TicketType): string {
    if ticketType == View then "view/" else "download-ticket?ticketId="
  }

  /**
   * composeTicketUrl: the configured server URL stands in for a missing
   * prefix, which always ends with exactly the one slash it needs before
   * the viewer or download path.
   */
  function ComposeTicketUrl(ticketType: TicketType, ticketId: string, urlPrefix: string, serverUrl: string)
    : (r: string)
    ensures StartsWith(r, if urlPrefix == "" then serverUrl else urlPrefix)
    ensures EndsWith(r, "/" + TicketPath(ticketType) + ticketId)
    ensures var p := if urlPrefix == "" then serverUrl else urlPrefix;
            |r| == |p| + (if EndsWith(p, "/") then 0 else 1) + |TicketPath(ticketType)| + |ticketId|
  {
    var p := if urlPrefix == "" then serverUrl else urlPrefix;
    var q := if EndsWith(p, "/") then p else p + "/";
    var tail := TicketPath(ticketType) + ticketId;
    assert StartsWith(q, p) && EndsWith(q, "/") by {
      if !EndsWith(p, "/") {
        Concat3(p, "/", "");
        assert q == p + "/" + "";
      }
    }
    PrefixOfAppend(q, tail, p);
    SuffixOfAppend(q, tail, "/");
    assert "/" + tail == "/" + TicketPath(ticketType) + ticketId;
    q + tail
  }
}
