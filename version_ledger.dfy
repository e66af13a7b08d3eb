/**
 * The version table of the lifecycle coordinator: an append-only log of
 * version rows, each carrying a soft-delete code, and the scans that
 * deleteVersion and storeVersionAsync run over it.
 */
module VersionLedger {
  import opened Common
  import opened VersionNumbers
  import opened Documents

  /** The soft-delete code written by a plain delete; a row carrying it is no longer found by id. */
  const DeletedCodeDefault: int := 1

  /** Row ids are primary keys. */
  predicate UniqueIds(log: seq<Version>) {
    forall i, j :: 0 <= i < j < |log| ==> log[i].id != log[j].id
  }

  /** versionDAO.findById: the row with that id, unless it was deleted with the default code. */
  function FindVersion(log: seq<Version>, id: int): (r: Option<Version>)
    requires UniqueIds(log)
    ensures r.Some? ==> r.value in log && r.value.id == id && r.value.deleted != DeletedCodeDefault
    ensures r.None? ==> forall i :: 0 <= i < |log| && log[i].id == id ==> log[i].deleted == DeletedCodeDefault
  {
    if log == [] then None
    else if log[0].id == id then (if log[0].deleted == DeletedCodeDefault then None else Some(log[0]))
    else FindVersion(log[1..], id)
  }

  /** A row the listing of `docId` shows. */
  predicate IsLive(v: Version, docId: int) {
    v.docId == docId && v.deleted == 0
  }

  /** No row after position `i` is shown in the listing of `docId`. */
  predicate NoLiveAfter(log: seq<Version>, docId: int, i: int) {
    forall j :: 0 <= i < j < |log| ==> !IsLive(log[j], docId)
  }

  /** versionDAO.findByDocId: the live versions of a document, newest (last written) first. */
  function VersionsOf(log: seq<Version>, docId: int): (r: seq<Version>)
    ensures forall v :: v in r <==> v in log && IsLive(v, docId)
  {
    if log == [] then []
    else
      var last := log[|log| - 1];
      (if IsLive(last, docId) then [last] else []) + VersionsOf(log[..|log| - 1], docId)
  }

  /** The first row of the listing is the live version of the document written last. */
  lemma {:induction false} NewestVersionFirst(log: seq<Version>, docId: int)
    requires VersionsOf(log, docId) != []
    ensures exists i :: 0 <= i < |log| && log[i] == VersionsOf(log, docId)[0] && IsLive(log[i], docId)
                        && NoLiveAfter(log, docId, i)
  {
    var n := |log| - 1;
    if IsLive(log[n], docId) {
      assert NoLiveAfter(log, docId, n);
    } else {
      var init := log[..n];
      assert VersionsOf(log, docId) == VersionsOf(init, docId);
      NewestVersionFirst(init, docId);
      var i :| 0 <= i < |init| && init[i] == VersionsOf(init, docId)[0] && IsLive(init[i], docId)
               && NoLiveAfter(init, docId, i);
      assert log[i] == init[i];
      assert NoLiveAfter(log, docId, i);
    }
  }

  /** versionDAO.delete(id): the row found by id is marked with the default deletion code. */
  function SoftDeleteVersion(log: seq<Version>, id: int): (r: seq<Version>)
    ensures |r| == |log|
    ensures forall i :: 0 <= i < |log| ==>
      r[i] == (if log[i].id == id && log[i].deleted != DeletedCodeDefault
               then log[i].(deleted := DeletedCodeDefault) else log[i])
  {
    seq(|log|, i requires 0 <= i < |log| =>
      if log[i].id == id && log[i].deleted != DeletedCodeDefault then log[i].(deleted := DeletedCodeDefault) else log[i])
  }

  /** After a delete the row is no longer found, while every other row is found as before. */
  lemma {:induction false} SoftDeleteHides(log: seq<Version>, id: int, other: int)
    requires UniqueIds(log)
    ensures UniqueIds(SoftDeleteVersion(log, id))
    ensures FindVersion(SoftDeleteVersion(log, id), id).None?
    ensures other != id ==> FindVersion(SoftDeleteVersion(log, id), other) == FindVersion(log, other)
  {
    var after := SoftDeleteVersion(log, id);
    if log != [] {
      SoftDeleteHides(log[1..], id, other);
      assert after[1..] == SoftDeleteVersion(log[1..], id);
    }
  }

  /** A deleted row leaves the listing of its document and nothing else does. */
  lemma SoftDeleteUnlists(log: seq<Version>, id: int, docId: int)
    ensures forall v :: v in VersionsOf(SoftDeleteVersion(log, id), docId) <==>
                        v in VersionsOf(log, docId) && v.id != id
  {
    var after := SoftDeleteVersion(log, id);
    forall v | v in VersionsOf(after, docId)
      ensures v in VersionsOf(log, docId) && v.id != id
    {
      var i :| 0 <= i < |after| && after[i] == v;
      assert log[i] == v;
    }
    forall v | v in VersionsOf(log, docId) && v.id != id
      ensures v in VersionsOf(after, docId)
    {
      var i :| 0 <= i < |log| && log[i] == v;
      assert after[i] == v;
    }
  }

  /** Another version of the listing (a different id) uses the same file version. */
  predicate SharesFileVersion(versions: seq<Version>, versionId: int, fileVersion: VersionNumber) {
    exists i :: 0 <= i < |versions| && versions[i].id != versionId && versions[i].fileVersion == fileVersion
  }

  /** The check deleteVersion makes before it removes the stored files of a file version. */
  method IsFileVersionShared(versions: seq<Version>, versionId: int, fileVersion: VersionNumber)
    returns (referenced: bool)
    ensures referenced <==> SharesFileVersion(versions, versionId, fileVersion)
  {
    referenced := false;
    var i := 0;
    while i < |versions|
      invariant 0 <= i <= |versions|
      invariant !referenced
      invariant forall j :: 0 <= j < i ==> !(versions[j].id != versionId && versions[j].fileVersion == fileVersion)
    {
      if versions[i].id != versionId && versions[i].fileVersion == fileVersion {
        referenced := true;
        return;
      }
      i := i + 1;
    }
  }

  /** A version that survives the deletion of `deletedId`. */
  predicate Remains(v: Version, deletedId: int) {
    v.deleted == 0 && v.id != deletedId
  }

  /** The first version of a listing that survives the deletion of `deletedId`. */
  function FirstRemaining(versions: seq<Version>, deletedId: int): (r: Option<Version>)
    ensures r.None? <==> forall i :: 0 <= i < |versions| ==> !Remains(versions[i], deletedId)
    ensures r.Some? ==> exists i :: 0 <= i < |versions| && versions[i] == r.value
                                  && Remains(versions[i], deletedId)
                                  && forall j :: 0 <= j < i ==> !Remains(versions[j], deletedId)
  {
    if versions == [] then None
    else if Remains(versions[0], deletedId) then Some(versions[0])
    else
      var r := FirstRemaining(versions[1..], deletedId);
      assert r.Some? ==> exists i :: 1 <= i < |versions| && versions[i] == r.value
                                  && Remains(versions[i], deletedId)
                                  && forall j :: 1 <= j < i ==> !Remains(versions[j], deletedId);
      r
  }

  /** getLastVersion: scans the listing for the first version that survives the deletion. */
  method LastRemainingVersion(versions: seq<Version>, deletedId: int) returns (last: Option<Version>)
    ensures last == FirstRemaining(versions, deletedId)
  {
    last := None;
    var i := 0;
    while i < |versions|
      invariant 0 <= i <= |versions|
      invariant FirstRemaining(versions, deletedId) == FirstRemaining(versions[i..], deletedId)
    {
      if Remains(versions[i], deletedId) {
        last := Some(versions[i]);
        return;
      }
      assert versions[i..][1..] == versions[i + 1..];
      i := i + 1;
    }
  }

  /** replaceFile: every live version of the document using `fileVersion` gets the new file size. */
  function ResizedVersions(log: seq<Version>, docId: int, fileVersion: VersionNumber, fileSize: int)
    : (r: seq<Version>)
    ensures |r| == |log|
    ensures forall i :: 0 <= i < |log| ==>
      r[i] == (if log[i].docId == docId && log[i].deleted == 0 && log[i].fileVersion == fileVersion
               then log[i].(fileSize := fileSize) else log[i])
  {
    seq(|log|, i requires 0 <= i < |log| =>
      if log[i].docId == docId && log[i].deleted == 0 && log[i].fileVersion == fileVersion
      then log[i].(fileSize := fileSize) else log[i])
  }

  /** storeVersionAsync gives the document's record this many polls to appear. */
  const MaxPolls: nat := 100

  /**
   * storeVersionAsync's wait: the record count is polled until it is
   * non-zero or the polls are used up; the version is written only when
   * the record showed up. `rowCount(t)` is the count seen at poll `t`.
   */
  method AwaitDocumentRow(rowCount: nat -> nat) returns (written: bool, polls: nat)
    ensures polls <= MaxPolls
    ensures written <==> exists t :: 0 <= t < MaxPolls && rowCount(t) > 0
    ensures written ==> polls > 0 && rowCount(polls - 1) > 0
    ensures forall t :: 0 <= t < polls - 1 ==> rowCount(t) == 0
    ensures !written ==> polls == MaxPolls
  {
    var count := 0;
    polls := 0;
    while count == 0 && polls < MaxPolls
      invariant polls <= MaxPolls
      invariant forall t :: 0 <= t < polls - 1 ==> rowCount(t) == 0
      invariant polls == 0 ==> count == 0
      invariant polls > 0 ==> count == rowCount(polls - 1)
    {
      count := rowCount(polls);
      polls := polls + 1;
    }
    written := count > 0;
  }
}
