/**
  The two orphan scans of `MaintenanceService` and the deletion of metadata
  entries whose file is gone. A scan walks one collection in its scan order and
  probes the other store by id for every document it visits.
*/
module Consistency {
  import opened Wrappers
  import opened Packages

  /**
    The metadata of a GridFS file that the scans look at: `metadata.arch`,
    which a file may lack, and whether `metadata.markedAsDeleted` is present.
  */
  datatype StoredFile = StoredFile(arch: Option<string>, markedAsDeleted: bool)

  /** A snapshot of the GridFS files collection and the order a scan visits it in, each file once. */
  datatype GridFsFiles = GridFsFiles(files: map<ObjectId, StoredFile>, order: seq<ObjectId>)
  {
    ghost predicate Valid()
    {
      && (forall id :: id in order <==> id in files)
      && (forall k, l :: 0 <= k < l < |order| ==> order[k] != order[l])
    }
  }

  /** What `FileStorageService.findById` returns for a stored file. */
  datatype FileStorageItem = FileStorageItem(id: ObjectId, file: StoredFile)

  /**
    The query of `getFilesWithoutYumEntry`: `metadata.arch` is not "repodata"
    (a missing arch matches, as with Mongo's `$ne`) and `metadata.markedAsDeleted`
    does not exist.
  */
  predicate MatchesFileQuery(f: StoredFile)
  {
    f.arch != Some("repodata") && !f.markedAsDeleted
  }

  /**
    What both callback handlers collect: the scanned ids that the other store,
    probed by id, does not hold. `CheckForMissingFsFilesCallbackHandler` probes
    the GridFS files with the metadata ids; `CheckForMissingEntriesCallbackHandler`
    probes the metadata entries with the file ids.
  */
  function IdsNotIn<V>(scan: seq<ObjectId>, other: map<ObjectId, V>): (missing: seq<ObjectId>)
    ensures forall id :: id in missing <==> id in scan && id !in other
  {
    if scan == [] then []
    else (if scan[0] in other then [] else [scan[0]]) + IdsNotIn(scan[1..], other)
  }

  /** The files query run over the collection: the ids of the files it matches, in scan order. */
  function QueryFiles(scan: seq<ObjectId>, files: map<ObjectId, StoredFile>): (matched: seq<ObjectId>)
    ensures forall id :: id in matched <==> id in scan && id in files && MatchesFileQuery(files[id])
  {
    if scan == [] then []
    else
      var rest := QueryFiles(scan[1..], files);
      if scan[0] in files && MatchesFileQuery(files[scan[0]]) then [scan[0]] + rest else rest
  }

  /**
    `getYumEntriesWithoutAssociatedFiles`: every metadata entry whose id has no
    GridFS file, keyed by id, hydrated to its reduced view.
  */
  function GetYumEntriesWithoutAssociatedFiles(store: YumEntries, gridFs: GridFsFiles)
    : (r: map<ObjectId, YumPackageReducedView>)
    requires store.Valid()
    ensures r.Keys == store.entries.Keys - gridFs.files.Keys
    ensures forall id :: id in r ==> r[id] == ReducedView(store.entries[id].yumPackage)
  {
    var missing := IdsNotIn(store.order, gridFs.files);
    map id | id in missing :: ReducedView(store.entries[id].yumPackage)
  }

  /**
    `getFilesWithoutYumEntry`: every GridFS file that is not repository
    metadata, not marked for deletion, and has no metadata entry of its id.
  */
  function GetFilesWithoutYumEntry(store: YumEntries, gridFs: GridFsFiles): (r: set<FileStorageItem>)
    requires gridFs.Valid()
    ensures forall item :: item in r <==>
      && item.id in gridFs.files
      && item.file == gridFs.files[item.id]
      && MatchesFileQuery(item.file)
      && item.id !in store.entries
  {
    var missing := IdsNotIn(QueryFiles(gridFs.order, gridFs.files), store.entries);
    set id | id in missing :: FileStorageItem(id, gridFs.files[id])
  }

  /** The scan order with the given ids taken out. */
  function RemoveIds(order: seq<ObjectId>, ids: set<ObjectId>): (r: seq<ObjectId>)
    ensures forall id :: id in r <==> id in order && id !in ids
    ensures (forall k, l :: 0 <= k < l < |order| ==> order[k] != order[l]) ==>
      forall k, l :: 0 <= k < l < |r| ==> r[k] != r[l]
  {
    if order == [] then []
    else (if order[0] in ids then [] else [order[0]]) + RemoveIds(order[1..], ids)
  }

  /**
    `deleteYumEntriesWithoutAssociatedFiles`: deletes every entry the first scan
    reports and returns what it deleted. The first component is the metadata
    store afterwards.
  */
  function DeleteYumEntriesWithoutAssociatedFiles(store: YumEntries, gridFs: GridFsFiles)
    : (r: (YumEntries, map<ObjectId, YumPackageReducedView>))
    requires store.Valid()
    ensures r.1.Keys == store.entries.Keys - gridFs.files.Keys
    ensures forall id :: id in r.1 ==> r.1[id] == ReducedView(store.entries[id].yumPackage)
    ensures r.0.Valid()
    ensures forall id :: id in r.0.entries <==> id in store.entries && id !in r.1
    ensures forall id :: id in r.0.entries ==> r.0.entries[id] == store.entries[id]
  {
    var result := GetYumEntriesWithoutAssociatedFiles(store, gridFs);
    (YumEntries(store.entries - result.Keys, RemoveIds(store.order, result.Keys)), result)
  }

  /** After the deletion, the scan for entries without files finds nothing. */
  lemma DeletionLeavesNoOrphanedEntries(store: YumEntries, gridFs: GridFsFiles)
    requires store.Valid()
    ensures var after := DeleteYumEntriesWithoutAssociatedFiles(store, gridFs).0;
      GetYumEntriesWithoutAssociatedFiles(after, gridFs) == map[]
  {
    var after := DeleteYumEntriesWithoutAssociatedFiles(store, gridFs).0;
    assert GetYumEntriesWithoutAssociatedFiles(after, gridFs).Keys == {};
  }

  /**
    The two orphan reports never name the same id, and an id held by both
    stores is in neither report.
  */
  lemma OrphanReportsAreDisjoint(store: YumEntries, gridFs: GridFsFiles, id: ObjectId)
    requires store.Valid() && gridFs.Valid()
    ensures !(id in GetYumEntriesWithoutAssociatedFiles(store, gridFs)
              && exists item :: item in GetFilesWithoutYumEntry(store, gridFs) && item.id == id)
    ensures id in store.entries && id in gridFs.files ==>
      id !in GetYumEntriesWithoutAssociatedFiles(store, gridFs)
      && forall item :: item in GetFilesWithoutYumEntry(store, gridFs) ==> item.id != id
  {
  }
}
