# MaintenanceService of yum-repo-server, in Dafny

This project models the maintenance engine of the YUM repository server. The
engine is the class `MaintenanceService`. The model covers:

- **The newest-package index** (`findNewestPackages`). For every (name, arch)
  pair of a repository, the index keeps the package with the highest version.
  A later package replaces the slot's occupant only when it is strictly newer,
  so on a tie the first package seen stays.
- **Classification** (`filterRPMs`, `filterRPMsFromPropagationChain`,
  `getObsoleteRPMs`, `getPropagatableRPMs`). The obsolete filter and the
  propagatable filter each compare a source-repository package with the newest
  target package of the same name and arch.
- **The two orphan scans** (`getYumEntriesWithoutAssociatedFiles`,
  `getFilesWithoutYumEntry`, with their two callback handlers) and the deletion
  of metadata entries that have no file (`deleteYumEntriesWithoutAssociatedFiles`).
- **The obsolete-RPM deletion job** (`deleteObsoleteRPMs`). It recomputes the
  obsolete set. It then splits each location at `/`, builds a file descriptor
  from the first two pieces, and asks the storage to delete that file. A failed
  delete is caught and the loop goes on.

The version comparator is a parameter `cmp`. Every property assumes only
`IsVersionOrder(cmp)`: comparing a version with itself gives 0, swapping the
arguments flips the sign, and `<= 0` is transitive. The metadata collection
and the GridFS files collection are immutable snapshots, each a map by id
paired with the order a collection scan visits the ids in. The blob storage is
a set of present files plus a set of files whose delete fails for reasons
outside the model.

Files:

- `wrappers.dfy` holds `Option`.
- `packages.dfy` holds the records, the comparator and `findByRepo`.
- `newest_index.dfy` holds the index and its reference characterisation
  `IsFirstNewest`.
- `propagation.dfy` holds the filters and the classification.
- `consistency.dfy` holds the orphan scans.
- `obsolete_deletion.dfy` holds the deletion job.

Behaviour of the code that a reader may not expect, and that the model keeps:

- **An unsplittable location stops the job.** Only `storageService.delete`
  (MaintenanceService.java:130) is inside the `try`. The `split("/")` and the
  read of `strings[1]` (lines 125-126) come before it. A location without a
  second piece therefore throws out of the loop and ends the job. Examples are
  a location with no slash, or `noarch/`, whose trailing empty piece Java's
  `split` drops. `DeleteEach` returns `aborted` for this case. The job
  attempts the views it visits before the first such location, and `aborted`
  holds exactly when the obsolete set contains one. Failed deletes do not stop
  the loop.
- **A slash is not enough.** `TrailingSlashLeavesOnePiece` shows the `noarch/`
  case.
- **Extra path pieces are dropped.** A location with more than two pieces
  yields a descriptor of its first two pieces only.
- **Result sets have no modelled order.** `filterRPMs` collects into a
  `TreeSet` (line 152), whose iteration order depends on
  `YumPackageReducedView.compareTo`. That class is not part of this model.
  Results are Dafny sets, and the job visits them in an arbitrary enumeration
  order.

## Model

| member | source | states |
|---|---|---|
| Packages.FindByRepo | src/main/java/de/is24/infrastructure/gridfs/http/maintenance/MaintenanceService.java:141-143 | every returned entry belongs to the repository and is stored; every stored entry of the repository is returned |
| NewestIndex.IndexDomain | src/main/java/de/is24/infrastructure/gridfs/http/maintenance/MaintenanceService.java:180-199 | the index has a slot for (name, arch) if and only if some input package has that name and arch |
| NewestIndex.IndexKeepsFirstNewest | src/main/java/de/is24/infrastructure/gridfs/http/maintenance/MaintenanceService.java:180-199 | every slot holds an input package of its name and arch: the first one whose version is strictly newer than all earlier ones and at least as new as all later ones |
| NewestIndex.IndexRetainsFirstNewest | src/main/java/de/is24/infrastructure/gridfs/http/maintenance/MaintenanceService.java:180-199 | conversely, the first newest package of a pair is the one its slot holds |
| NewestIndex.FirstNewestIsUnique | src/main/java/de/is24/infrastructure/gridfs/http/maintenance/MaintenanceService.java:193-196 | at most one position is the first newest of a (name, arch), so the retained package is determined by the input order |
| NewestIndex.NewestIsMaximal | src/main/java/de/is24/infrastructure/gridfs/http/maintenance/MaintenanceService.java:180-199 | the retained package compares at least equal to every input package of its name and arch |
| NewestIndex.TiesKeepFirstSeen | src/main/java/de/is24/infrastructure/gridfs/http/maintenance/MaintenanceService.java:193-196 | a package whose version ties with the retained one never displaces an earlier one: the retained package occurs at or before it |
| NewestIndex.MatchingPackageIsNewest | src/main/java/de/is24/infrastructure/gridfs/http/maintenance/MaintenanceService.java:166-173 | the lookup is absent if and only if the input has no package of that name and arch, and otherwise is the first newest such package |
| Propagation.FiltersAreExclusive | src/main/java/de/is24/infrastructure/gridfs/http/maintenance/MaintenanceService.java:214-238 | no pair satisfies both filters; an absent target makes a package propagatable and not obsolete; with a target, equal versions satisfy neither filter and only equal versions do |
| Propagation.ObsoleteIffSupersededInTarget | src/main/java/de/is24/infrastructure/gridfs/http/maintenance/MaintenanceService.java:214-219 | the obsolete filter on the index lookup holds if and only if some target package of that name and arch is strictly newer |
| Propagation.PropagatableIffNewerThanTarget | src/main/java/de/is24/infrastructure/gridfs/http/maintenance/MaintenanceService.java:227-232 | the propagatable filter on the index lookup holds if and only if every target package of that name and arch, possibly none, is strictly older |
| Propagation.FilterRPMs | src/main/java/de/is24/infrastructure/gridfs/http/maintenance/MaintenanceService.java:149-163 | a view is in the result if and only if it is the reduced view of a source entry the filter accepts |
| Propagation.FilterRPMsExact | src/main/java/de/is24/infrastructure/gridfs/http/maintenance/MaintenanceService.java:138-163 | against the index of the target entries, the result is exactly the views of source packages that qualify, judged against the target entries without the index |
| Propagation.ObsoleteRPMsExact | src/main/java/de/is24/infrastructure/gridfs/http/maintenance/MaintenanceService.java:82-85 | the obsolete set is exactly the views of source-repository entries for which the target repository holds a strictly newer package of the same name and arch |
| Propagation.PropagatableRPMsExact | src/main/java/de/is24/infrastructure/gridfs/http/maintenance/MaintenanceService.java:77-80 | the propagatable set is exactly the views of source-repository entries strictly newer than every target package of the same name and arch |
| Propagation.ResultsComeFromSourceRepo | src/main/java/de/is24/infrastructure/gridfs/http/maintenance/MaintenanceService.java:138-146 | every reported view is that of an entry stored in the source repository |
| Propagation.ObsoleteAndPropagatableAreDisjoint | src/main/java/de/is24/infrastructure/gridfs/http/maintenance/MaintenanceService.java:77-85 | no view is reported both obsolete and propagatable |
| Propagation.EmptyTargetPropagatesEverything | src/main/java/de/is24/infrastructure/gridfs/http/maintenance/MaintenanceService.java:166-173 | against an empty target repository nothing is obsolete and every source view is propagatable |
| Consistency.IdsNotIn | src/main/java/de/is24/infrastructure/gridfs/http/maintenance/MaintenanceService.java:260-300 | both callback handlers collect exactly the scanned ids that the other store, probed by id, does not hold |
| Consistency.QueryFiles | src/main/java/de/is24/infrastructure/gridfs/http/maintenance/MaintenanceService.java:112-116 | the file query visits exactly the stored files whose arch is not "repodata" (a missing arch matches) and that are not marked as deleted |
| Consistency.GetYumEntriesWithoutAssociatedFiles | src/main/java/de/is24/infrastructure/gridfs/http/maintenance/MaintenanceService.java:95-109 | the result's ids are exactly the entry ids without a file, each mapped to its entry's reduced view |
| Consistency.GetFilesWithoutYumEntry | src/main/java/de/is24/infrastructure/gridfs/http/maintenance/MaintenanceService.java:111-119 | an item is reported if and only if it is a stored file matching the query whose id has no metadata entry |
| Consistency.DeleteYumEntriesWithoutAssociatedFiles | src/main/java/de/is24/infrastructure/gridfs/http/maintenance/MaintenanceService.java:201-206 | returns the entries without a file; afterwards an entry is stored if and only if it was stored and was not returned, and the kept entries are unchanged |
| Consistency.DeletionLeavesNoOrphanedEntries | src/main/java/de/is24/infrastructure/gridfs/http/maintenance/MaintenanceService.java:201-206 | after the deletion, the scan for entries without files finds nothing |
| Consistency.OrphanReportsAreDisjoint | src/main/java/de/is24/infrastructure/gridfs/http/maintenance/MaintenanceService.java:95-119 | no id is in both orphan reports, and an id in both stores is in neither |
| ObsoleteDeletion.SplitJoinRoundTrip | src/main/java/de/is24/infrastructure/gridfs/http/maintenance/MaintenanceService.java:125 | the split before trailing empty pieces are dropped (`SplitAtSlashes`) loses nothing: its pieces hold no slash, and joining them with slashes gives the location back |
| ObsoleteDeletion.DescriptorOfArchAndFile | src/main/java/de/is24/infrastructure/gridfs/http/maintenance/MaintenanceService.java:125-126 | a location `arch/filename` with a non-empty file name yields the descriptor of that arch and file in the source repository |
| ObsoleteDeletion.TrailingSlashLeavesOnePiece | src/main/java/de/is24/infrastructure/gridfs/http/maintenance/MaintenanceService.java:125-126 | `noarch/` splits into one piece, so it has no `strings[1]` |
| ObsoleteDeletion.SplittablePrefix | src/main/java/de/is24/infrastructure/gridfs/http/maintenance/MaintenanceService.java:124-126 | counts the views the loop gets past: all of them have an arch and a file name, and the next one, if any, does not |
| ObsoleteDeletion.DeleteInOrderBalance | src/main/java/de/is24/infrastructure/gridfs/http/maintenance/MaintenanceService.java:124-134 | after the deletes, the stored files are the starting ones less the attempted files whose delete could succeed; a failed delete changes nothing |
| ObsoleteDeletion.DeleteInOrderAnswers | src/main/java/de/is24/infrastructure/gridfs/http/maintenance/MaintenanceService.java:129-133 | each delete fails for an unavailable file exactly when the file was unavailable at the start, and succeeds only for a file stored at the start |
| ObsoleteDeletion.DeleteInOrderDeletedOnFirstTry | src/main/java/de/is24/infrastructure/gridfs/http/maintenance/MaintenanceService.java:129-133 | a delete succeeds exactly when its file was stored and available at the start and no earlier attempt of the job had the same descriptor; otherwise it fails |
| ObsoleteDeletion.CompleteRunAttemptsAllDescriptors | src/main/java/de/is24/infrastructure/gridfs/http/maintenance/MaintenanceService.java:124-134 | going through every view of a set asks the storage to delete exactly the descriptors derived from the set |
| ObsoleteDeletion.StopsIffUnsplittable | src/main/java/de/is24/infrastructure/gridfs/http/maintenance/MaintenanceService.java:124-126 | the loop stops early if and only if some view's location lacks an arch or a file name |
| ObsoleteDeletion.RunPlan | src/main/java/de/is24/infrastructure/gridfs/http/maintenance/MaintenanceService.java:124-134 | the loop tries every planned file once and in order, whatever the earlier deletes answered; a delete succeeds exactly on the first try of a stored, available file, and an unavailable file always fails; afterwards the store has lost exactly the tried files whose delete could succeed |
| ObsoleteDeletion.DeleteEach | src/main/java/de/is24/infrastructure/gridfs/http/maintenance/MaintenanceService.java:124-134 | returns the visit order, which holds each view once; tries exactly the views before the first unsplittable location, in that order, with their own descriptors, whatever the earlier deletes answered; stops early if and only if such a location exists; a delete succeeds exactly on the first try of a stored, available file; removes exactly the attempted files that can be deleted |
| ObsoleteDeletion.DeleteObsoleteRPMs | src/main/java/de/is24/infrastructure/gridfs/http/maintenance/MaintenanceService.java:122-135 | the same, for the obsolete set recomputed from the current stores |
| ObsoleteDeletion.Enumerate | src/main/java/de/is24/infrastructure/gridfs/http/maintenance/MaintenanceService.java:124 | the loop's iteration order: every element of the set exactly once |

## Left out

- `triggerDeletionOfObsoleteRPMs` and `DeleteObsoleteRPMsJob.run` (MaintenanceService.java:87-93, 240-257) are left out. They submit the job to an executor and wrap it in `MDCHelper`, which is concurrency and logging. The job body is `DeleteObsoleteRPMs`.
- Logging is left out. It has no effect on results.
- `@MongoTx` (src/main/java/org/springframework/data/mongodb/tx/MongoTx.java) is left out: rollback is framework behaviour. `DeleteYumEntriesWithoutAssociatedFiles` is modelled as one atomic step on a snapshot.
- Concurrent writers are left out. The scans and `findOne` look at one snapshot, so the `null` an entry deleted mid-scan would give `getYumEntriesWithoutAssociatedFiles` is not modelled.
- The Mongo queries and the streaming callbacks are left out. A scan is a walk over a snapshot's order.
- `fileStorageService.findById` hydration is modelled as pairing the id with the stored file's metadata.
- `YumPackageVersionComparator` is not part of this model. The comparator is a parameter constrained by `IsVersionOrder`.
- The `TreeSet` of `filterRPMs` is modelled as a set. Its de-duplication by `YumPackageReducedView.compareTo` is not part of this model, so the model de-duplicates by equality of the reduced view.
- `StorageService.delete` is not part of this model. The blob store answers NotFound for a file it does not hold and fails for the files listed as unavailable. That set is fixed for the whole run, so a file's delete fails as unavailable on every attempt in one run or on none. A failure that clears between two deletes of the same descriptor is not modelled; two views can share a descriptor when their locations have more than two pieces.
- `DeleteEach`: the exception that ends the job is modelled as the `aborted` result, with the attempts made until then. The `LOGGER.info` call, which only reads the descriptor, is left out.
- Permission.java holds constants only and is left out.
- The HTTP integration tests are left out.
