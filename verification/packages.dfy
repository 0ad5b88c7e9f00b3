/**
  The records the maintenance engine reads: YUM packages, the metadata entries
  that hold them, their reduced views, the version comparator the engine is
  parameterised by, and the snapshot of the metadata store it queries.
*/
module Packages {
  import opened Wrappers

  /** A MongoDB `_id`; a metadata entry and its GridFS file share the same id. */
  type ObjectId = nat

  /** RPM epoch/version/release; the epoch may be missing. */
  datatype VersionSpec = VersionSpec(epoch: Option<int>, ver: string, rel: string)

  /** Relative path of the RPM inside its repository, `arch/filename.rpm`. */
  datatype YumPackageLocation = YumPackageLocation(href: string)

  datatype YumPackage = YumPackage(
    name: string,
    arch: string,
    version: VersionSpec,
    location: YumPackageLocation)

  /** One document of the metadata collection: the repository it belongs to and its package. */
  datatype YumEntry = YumEntry(repo: string, yumPackage: YumPackage)

  /** The projection of a package that is returned to callers in result sets. */
  datatype YumPackageReducedView = YumPackageReducedView(
    name: string,
    arch: string,
    version: VersionSpec,
    location: YumPackageLocation)

  function ReducedView(p: YumPackage): (v: YumPackageReducedView)
    ensures v.name == p.name && v.arch == p.arch
    ensures v.version == p.version && v.location == p.location
  {
    YumPackageReducedView(p.name, p.arch, p.version, p.location)
  }

  /** The package belongs to the (name, arch) slot of the newest-package index. */
  predicate HasKey(p: YumPackage, name: string, arch: string)
  {
    p.name == name && p.arch == arch
  }

  /** Two packages compete for the same slot of the newest-package index. */
  predicate SameKey(p: YumPackage, q: YumPackage)
  {
    HasKey(p, q.name, q.arch)
  }

  /*
    The RPM version comparator. Its segment rules are not part of this model:
    it is a parameter, and every property below needs only that it is a total
    preorder whose sign flips when the arguments are swapped.
  */

  type Comparator = (VersionSpec, VersionSpec) -> int

  ghost predicate IsVersionOrder(cmp: Comparator)
  {
    && (forall a :: cmp(a, a) == 0)
    && (forall a, b :: cmp(a, b) > 0 <==> cmp(b, a) < 0)
    && (forall a, b, c :: cmp(a, b) <= 0 && cmp(b, c) <= 0 ==> cmp(a, c) <= 0)
  }

  lemma CompareStrictRight(cmp: Comparator, a: VersionSpec, b: VersionSpec, c: VersionSpec)
    requires IsVersionOrder(cmp)
    requires cmp(a, b) <= 0 && cmp(b, c) < 0
    ensures cmp(a, c) < 0
  {
  }

  lemma CompareStrictLeft(cmp: Comparator, a: VersionSpec, b: VersionSpec, c: VersionSpec)
    requires IsVersionOrder(cmp)
    requires cmp(a, b) < 0 && cmp(b, c) <= 0
    ensures cmp(a, c) < 0
  {
  }

  /**
    A snapshot of the metadata collection: the documents by id and the order in
    which a collection scan visits them. A store is well formed when the scan
    visits exactly the stored ids, each once.
  */
  datatype YumEntries = YumEntries(entries: map<ObjectId, YumEntry>, order: seq<ObjectId>)
  {
    ghost predicate Valid()
    {
      && (forall id :: id in order <==> id in entries)
      && (forall k, l :: 0 <= k < l < |order| ==> order[k] != order[l])
    }
  }

  /** `YumEntriesRepository.findByRepo`: the entries of one repository, in scan order. */
  function FindByRepo(store: YumEntries, repo: string): (r: seq<YumEntry>)
    ensures forall e :: e in r ==>
      e.repo == repo && exists id :: id in store.order && id in store.entries && store.entries[id] == e
    ensures forall id :: id in store.order && id in store.entries && store.entries[id].repo == repo ==>
      store.entries[id] in r
    decreases |store.order|
  {
    if store.order == [] then []
    else
      var id := store.order[0];
      var rest := FindByRepo(YumEntries(store.entries, store.order[1..]), repo);
      if id in store.entries && store.entries[id].repo == repo
      then [store.entries[id]] + rest
      else rest
  }
}
