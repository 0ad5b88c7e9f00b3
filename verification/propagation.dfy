/**
  Classification of a source repository's packages against the newest packages
  of a target repository: `getObsoleteRPMs` and `getPropagatableRPMs` of
  `MaintenanceService`, with their two filters.
*/
module Propagation {
  import opened Wrappers
  import opened Packages
  import opened NewestIndex

  /** The two strategies `ObsoleteRpmFilter` and `PropagatableRpmFilter`. */
  datatype Filter = ObsoleteRpmFilter | PropagatableRpmFilter

  /** `Filter.select`: decides a source package against the newest target package of its name and arch, if any. */
  function Select(cmp: Comparator, filter: Filter, newestTargetPackage: Option<YumPackage>, sourcePackage: YumPackage): bool
  {
    match filter
    case ObsoleteRpmFilter =>
      newestTargetPackage.Some? && cmp(newestTargetPackage.value.version, sourcePackage.version) > 0
    case PropagatableRpmFilter =>
      newestTargetPackage.None? || cmp(newestTargetPackage.value.version, sourcePackage.version) < 0
  }

  /** The filter accepts a source entry when looked up in the target index. */
  predicate Selected(cmp: Comparator, filter: Filter, index: Index, entry: YumEntry)
  {
    Select(cmp, filter, GetMatchingYumPackage(index, entry.yumPackage), entry.yumPackage)
  }

  /**
    `filterRPMs`: the reduced views of exactly those source entries the filter
    accepts, de-duplicated as a set.
  */
  function FilterRPMs(cmp: Comparator, filter: Filter, index: Index, sourceRepoEntries: seq<YumEntry>)
    : (result: set<YumPackageReducedView>)
    ensures forall v :: v in result <==>
      exists i :: 0 <= i < |sourceRepoEntries|
        && Selected(cmp, filter, index, sourceRepoEntries[i])
        && ReducedView(sourceRepoEntries[i].yumPackage) == v
    decreases |sourceRepoEntries|
  {
    if sourceRepoEntries == [] then {}
    else
      var entry := sourceRepoEntries[0];
      var rest := FilterRPMs(cmp, filter, index, sourceRepoEntries[1..]);
      if Selected(cmp, filter, index, entry) then {ReducedView(entry.yumPackage)} + rest else rest
  }

  /** `filterRPMsFromPropagationChain`: index the target repository, then filter the source repository. */
  function FilterRPMsFromPropagationChain(cmp: Comparator, filter: Filter, store: YumEntries, targetRepo: string, sourceRepo: string)
    : set<YumPackageReducedView>
  {
    FilterRPMs(cmp, filter, FindNewestPackages(cmp, FindByRepo(store, targetRepo)), FindByRepo(store, sourceRepo))
  }

  function GetPropagatableRPMs(cmp: Comparator, store: YumEntries, targetRepo: string, sourceRepo: string)
    : set<YumPackageReducedView>
  {
    FilterRPMsFromPropagationChain(cmp, PropagatableRpmFilter, store, targetRepo, sourceRepo)
  }

  function GetObsoleteRPMs(cmp: Comparator, store: YumEntries, targetRepo: string, sourceRepo: string)
    : set<YumPackageReducedView>
  {
    FilterRPMsFromPropagationChain(cmp, ObsoleteRpmFilter, store, targetRepo, sourceRepo)
  }

  /*
    Reference definitions that do not mention the index.
  */

  /** Some target package of the same name and arch is strictly newer. */
  ghost predicate SupersededIn(cmp: Comparator, targets: seq<YumEntry>, p: YumPackage)
  {
    exists j :: 0 <= j < |targets| && SameKey(targets[j].yumPackage, p)
      && cmp(targets[j].yumPackage.version, p.version) > 0
  }

  /** Every target package of the same name and arch (possibly none) is strictly older. */
  ghost predicate NewerThanAllIn(cmp: Comparator, targets: seq<YumEntry>, p: YumPackage)
  {
    forall j :: 0 <= j < |targets| && SameKey(targets[j].yumPackage, p) ==>
      cmp(targets[j].yumPackage.version, p.version) < 0
  }

  /**
    The two filters never agree on a package; an absent target package makes a
    source package propagatable and not obsolete; an equal version is neither;
    any other version is exactly one of the two.
  */
  lemma FiltersAreExclusive(cmp: Comparator, newestTargetPackage: Option<YumPackage>, sourcePackage: YumPackage)
    ensures !(Select(cmp, ObsoleteRpmFilter, newestTargetPackage, sourcePackage)
              && Select(cmp, PropagatableRpmFilter, newestTargetPackage, sourcePackage))
    ensures newestTargetPackage.None? ==>
      Select(cmp, PropagatableRpmFilter, newestTargetPackage, sourcePackage)
      && !Select(cmp, ObsoleteRpmFilter, newestTargetPackage, sourcePackage)
    ensures newestTargetPackage.Some? ==>
      (cmp(newestTargetPackage.value.version, sourcePackage.version) == 0 <==>
         !Select(cmp, ObsoleteRpmFilter, newestTargetPackage, sourcePackage)
         && !Select(cmp, PropagatableRpmFilter, newestTargetPackage, sourcePackage))
  {
  }

  /** A source package is obsolete exactly when the target holds a strictly newer package of its name and arch. */
  lemma ObsoleteIffSupersededInTarget(cmp: Comparator, targets: seq<YumEntry>, p: YumPackage)
    requires IsVersionOrder(cmp)
    ensures Select(cmp, ObsoleteRpmFilter, GetMatchingYumPackage(FindNewestPackages(cmp, targets), p), p)
      <==> SupersededIn(cmp, targets, p)
  {
    var m := GetMatchingYumPackage(FindNewestPackages(cmp, targets), p);
    MatchingPackageIsNewest(cmp, targets, p);
    if m.Some? {
      var i :| IsFirstNewest(cmp, targets, i) && targets[i].yumPackage == m.value;
      if SupersededIn(cmp, targets, p) {
        var j :| 0 <= j < |targets| && SameKey(targets[j].yumPackage, p)
          && cmp(targets[j].yumPackage.version, p.version) > 0;
        NewestIsMaximal(cmp, targets, p.name, p.arch);
        assert cmp(p.version, targets[j].yumPackage.version) < 0;
        assert cmp(targets[j].yumPackage.version, m.value.version) <= 0;
        CompareStrictLeft(cmp, p.version, targets[j].yumPackage.version, m.value.version);
      }
      if cmp(m.value.version, p.version) > 0 {
        assert SameKey(targets[i].yumPackage, p);
      }
    }
  }

  /** A source package is propagatable exactly when every target package of its name and arch is strictly older. */
  lemma PropagatableIffNewerThanTarget(cmp: Comparator, targets: seq<YumEntry>, p: YumPackage)
    requires IsVersionOrder(cmp)
    ensures Select(cmp, PropagatableRpmFilter, GetMatchingYumPackage(FindNewestPackages(cmp, targets), p), p)
      <==> NewerThanAllIn(cmp, targets, p)
  {
    var m := GetMatchingYumPackage(FindNewestPackages(cmp, targets), p);
    MatchingPackageIsNewest(cmp, targets, p);
    if m.Some? {
      var i :| IsFirstNewest(cmp, targets, i) && targets[i].yumPackage == m.value;
      if cmp(m.value.version, p.version) < 0 {
        NewestIsMaximal(cmp, targets, p.name, p.arch);
        forall j | 0 <= j < |targets| && SameKey(targets[j].yumPackage, p)
          ensures cmp(targets[j].yumPackage.version, p.version) < 0
        {
          assert HasKey(targets[j].yumPackage, p.name, p.arch);
          assert cmp(targets[j].yumPackage.version, m.value.version) <= 0;
          CompareStrictRight(cmp, targets[j].yumPackage.version, m.value.version, p.version);
        }
      } else {
        assert SameKey(targets[i].yumPackage, p);
      }
    }
  }

  /** The index-free verdict each filter is meant to compute. */
  ghost predicate Qualifies(cmp: Comparator, filter: Filter, targets: seq<YumEntry>, p: YumPackage)
  {
    match filter
    case ObsoleteRpmFilter => SupersededIn(cmp, targets, p)
    case PropagatableRpmFilter => NewerThanAllIn(cmp, targets, p)
  }

  /**
    Filtering a source sequence against the index of a target sequence keeps
    exactly the reduced views of the source packages that qualify.
  */
  lemma FilterRPMsExact(cmp: Comparator, filter: Filter, targets: seq<YumEntry>, sources: seq<YumEntry>, v: YumPackageReducedView)
    requires IsVersionOrder(cmp)
    ensures v in FilterRPMs(cmp, filter, FindNewestPackages(cmp, targets), sources) <==>
      exists i :: 0 <= i < |sources| && ReducedView(sources[i].yumPackage) == v
        && Qualifies(cmp, filter, targets, sources[i].yumPackage)
  {
    var index := FindNewestPackages(cmp, targets);
    forall i | 0 <= i < |sources|
      ensures Selected(cmp, filter, index, sources[i]) <==> Qualifies(cmp, filter, targets, sources[i].yumPackage)
    {
      var p := sources[i].yumPackage;
      match filter
      case ObsoleteRpmFilter => ObsoleteIffSupersededInTarget(cmp, targets, p);
      case PropagatableRpmFilter => PropagatableIffNewerThanTarget(cmp, targets, p);
    }
  }

  /**
    `getObsoleteRPMs` returns exactly the reduced views of source-repository
    entries for which the target repository holds a strictly newer package of
    the same name and arch.
  */
  lemma ObsoleteRPMsExact(cmp: Comparator, store: YumEntries, targetRepo: string, sourceRepo: string, v: YumPackageReducedView)
    requires IsVersionOrder(cmp)
    ensures v in GetObsoleteRPMs(cmp, store, targetRepo, sourceRepo) <==>
      exists i :: 0 <= i < |FindByRepo(store, sourceRepo)|
        && ReducedView(FindByRepo(store, sourceRepo)[i].yumPackage) == v
        && SupersededIn(cmp, FindByRepo(store, targetRepo), FindByRepo(store, sourceRepo)[i].yumPackage)
  {
    var targets := FindByRepo(store, targetRepo);
    var sources := FindByRepo(store, sourceRepo);
    FilterRPMsExact(cmp, ObsoleteRpmFilter, targets, sources, v);
    assert forall p :: Qualifies(cmp, ObsoleteRpmFilter, targets, p) == SupersededIn(cmp, targets, p);
  }

  /**
    `getPropagatableRPMs` returns exactly the reduced views of source-repository
    entries that are strictly newer than every target package of the same name
    and arch, in particular those the target does not hold at all.
  */
  lemma PropagatableRPMsExact(cmp: Comparator, store: YumEntries, targetRepo: string, sourceRepo: string, v: YumPackageReducedView)
    requires IsVersionOrder(cmp)
    ensures v in GetPropagatableRPMs(cmp, store, targetRepo, sourceRepo) <==>
      exists i :: 0 <= i < |FindByRepo(store, sourceRepo)|
        && ReducedView(FindByRepo(store, sourceRepo)[i].yumPackage) == v
        && NewerThanAllIn(cmp, FindByRepo(store, targetRepo), FindByRepo(store, sourceRepo)[i].yumPackage)
  {
    var targets := FindByRepo(store, targetRepo);
    var sources := FindByRepo(store, sourceRepo);
    FilterRPMsExact(cmp, PropagatableRpmFilter, targets, sources, v);
    assert forall p :: Qualifies(cmp, PropagatableRpmFilter, targets, p) == NewerThanAllIn(cmp, targets, p);
  }

  /** Every reported view is that of an entry stored in the source repository. */
  lemma ResultsComeFromSourceRepo(cmp: Comparator, filter: Filter, store: YumEntries, targetRepo: string, sourceRepo: string, v: YumPackageReducedView)
    requires v in FilterRPMsFromPropagationChain(cmp, filter, store, targetRepo, sourceRepo)
    ensures exists id :: (id in store.order && id in store.entries
      && store.entries[id].repo == sourceRepo && ReducedView(store.entries[id].yumPackage) == v)
  {
    var sources := FindByRepo(store, sourceRepo);
    var i :| 0 <= i < |sources| && ReducedView(sources[i].yumPackage) == v
      && Selected(cmp, filter, FindNewestPackages(cmp, FindByRepo(store, targetRepo)), sources[i]);
    assert sources[i] in sources;
  }

  /** No package is reported both obsolete and propagatable. */
  lemma ObsoleteAndPropagatableAreDisjoint(cmp: Comparator, store: YumEntries, targetRepo: string, sourceRepo: string)
    ensures GetObsoleteRPMs(cmp, store, targetRepo, sourceRepo) !! GetPropagatableRPMs(cmp, store, targetRepo, sourceRepo)
  {
    var index := FindNewestPackages(cmp, FindByRepo(store, targetRepo));
    var sources := FindByRepo(store, sourceRepo);
    forall v | v in GetObsoleteRPMs(cmp, store, targetRepo, sourceRepo)
      ensures v !in GetPropagatableRPMs(cmp, store, targetRepo, sourceRepo)
    {
      var i :| 0 <= i < |sources| && Selected(cmp, ObsoleteRpmFilter, index, sources[i])
        && ReducedView(sources[i].yumPackage) == v;
    }
  }

  /** Against an empty target repository every source package is propagatable and none is obsolete. */
  lemma EmptyTargetPropagatesEverything(cmp: Comparator, store: YumEntries, targetRepo: string, sourceRepo: string)
    requires FindByRepo(store, targetRepo) == []
    ensures GetObsoleteRPMs(cmp, store, targetRepo, sourceRepo) == {}
    ensures forall i :: 0 <= i < |FindByRepo(store, sourceRepo)| ==>
      ReducedView(FindByRepo(store, sourceRepo)[i].yumPackage) in GetPropagatableRPMs(cmp, store, targetRepo, sourceRepo)
  {
    var sources := FindByRepo(store, sourceRepo);
    assert FindNewestPackages(cmp, FindByRepo(store, targetRepo)) == map[];
    forall i | 0 <= i < |sources|
      ensures !Selected(cmp, ObsoleteRpmFilter, map[], sources[i])
      ensures Selected(cmp, PropagatableRpmFilter, map[], sources[i])
    {
    }
  }
}
