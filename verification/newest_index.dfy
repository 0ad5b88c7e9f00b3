/**
  The newest-package index of `MaintenanceService.findNewestPackages`: for every
  (name, arch) pair of a repository, the package with the highest version, the
  first one seen winning among equal versions.
*/
module NewestIndex {
  import opened Wrappers
  import opened Packages

  /** name -> (arch -> newest package). */
  type Index = map<string, map<string, YumPackage>>

  predicate HasSlot(index: Index, name: string, arch: string)
  {
    name in index && arch in index[name]
  }

  /** One pass of the loop body: the package replaces the slot's occupant only when strictly newer. */
  function Insert(cmp: Comparator, index: Index, p: YumPackage): Index
  {
    var packageMap := if p.name in index then index[p.name] else map[];
    if p.arch !in packageMap || cmp(p.version, packageMap[p.arch].version) > 0
    then index[p.name := packageMap[p.arch := p]]
    else index[p.name := packageMap]
  }

  /** The index after the loop has consumed `entries` in order. */
  function FindNewestPackages(cmp: Comparator, entries: seq<YumEntry>): Index
    decreases |entries|
  {
    if entries == [] then map[]
    else Insert(cmp, FindNewestPackages(cmp, entries[..|entries| - 1]), entries[|entries| - 1].yumPackage)
  }

  /** `getMatchingYumPackageByNameAndArchIfAny`: absent when either the name or the arch has no slot. */
  function GetMatchingYumPackage(index: Index, p: YumPackage): Option<YumPackage>
  {
    if p.name in index then
      (if p.arch in index[p.name] then Some(index[p.name][p.arch]) else None)
    else None
  }

  /*
    The reference definition the index is proved against.
  */

  ghost predicate Occurs(entries: seq<YumEntry>, name: string, arch: string)
  {
    exists i :: 0 <= i < |entries| && HasKey(entries[i].yumPackage, name, arch)
  }

  /**
    `entries[i]` is the first package of its (name, arch) with a maximal version:
    strictly newer than every earlier package of that pair, and at least as new
    as every later one.
  */
  ghost predicate IsFirstNewest(cmp: Comparator, entries: seq<YumEntry>, i: int)
  {
    && 0 <= i < |entries|
    && (forall j :: 0 <= j < i && SameKey(entries[j].yumPackage, entries[i].yumPackage) ==>
          cmp(entries[j].yumPackage.version, entries[i].yumPackage.version) < 0)
    && (forall j :: i < j < |entries| && SameKey(entries[j].yumPackage, entries[i].yumPackage) ==>
          cmp(entries[j].yumPackage.version, entries[i].yumPackage.version) <= 0)
  }

  /** The index has a slot for (name, arch) exactly when some input package has that name and arch. */
  lemma {:induction false} IndexDomain(cmp: Comparator, entries: seq<YumEntry>, name: string, arch: string)
    ensures HasSlot(FindNewestPackages(cmp, entries), name, arch) <==> Occurs(entries, name, arch)
  {
    if entries != [] {
      var n := |entries| - 1;
      var prefix := entries[..n];
      IndexDomain(cmp, prefix, name, arch);
      if Occurs(prefix, name, arch) {
        var i :| 0 <= i < n && HasKey(prefix[i].yumPackage, name, arch);
        assert HasKey(entries[i].yumPackage, name, arch);
      }
      if Occurs(entries, name, arch) && !HasKey(entries[n].yumPackage, name, arch) {
        var i :| 0 <= i < |entries| && HasKey(entries[i].yumPackage, name, arch);
        assert prefix[i] == entries[i];
      }
    }
  }

  /** The index's slot for (name, arch) holds the first newest input package of that pair. */
  ghost predicate SlotIsFirstNewest(cmp: Comparator, entries: seq<YumEntry>, name: string, arch: string)
    requires HasSlot(FindNewestPackages(cmp, entries), name, arch)
  {
    exists i :: IsFirstNewest(cmp, entries, i)
      && HasKey(entries[i].yumPackage, name, arch)
      && entries[i].yumPackage == FindNewestPackages(cmp, entries)[name][arch]
  }

  /**
    Every slot holds an input package of that name and arch which is the first
    one with a maximal version.
  */
  lemma {:induction false} IndexKeepsFirstNewest(cmp: Comparator, entries: seq<YumEntry>, name: string, arch: string)
    requires IsVersionOrder(cmp)
    requires HasSlot(FindNewestPackages(cmp, entries), name, arch)
    ensures SlotIsFirstNewest(cmp, entries, name, arch)
  {
    var n := |entries| - 1;
    var prefix := entries[..n];
    var p := entries[n].yumPackage;
    if !HasKey(p, name, arch) {
      assert HasSlot(FindNewestPackages(cmp, prefix), name, arch);
      IndexKeepsFirstNewest(cmp, prefix, name, arch);
      OtherSlotUnchanged(cmp, entries, name, arch);
    } else if !HasSlot(FindNewestPackages(cmp, prefix), name, arch) {
      FirstOfItsKey(cmp, entries, name, arch);
    } else {
      IndexKeepsFirstNewest(cmp, prefix, name, arch);
      OccupiedSlot(cmp, entries, name, arch);
    }
  }

  /** Step case: the last package belongs to another slot, which keeps its occupant. */
  lemma OtherSlotUnchanged(cmp: Comparator, entries: seq<YumEntry>, name: string, arch: string)
    requires entries != []
    requires !HasKey(entries[|entries| - 1].yumPackage, name, arch)
    requires HasSlot(FindNewestPackages(cmp, entries[..|entries| - 1]), name, arch)
    requires SlotIsFirstNewest(cmp, entries[..|entries| - 1], name, arch)
    ensures HasSlot(FindNewestPackages(cmp, entries), name, arch)
    ensures SlotIsFirstNewest(cmp, entries, name, arch)
  {
    var n := |entries| - 1;
    var prefix := entries[..n];
    var before := FindNewestPackages(cmp, prefix);
    InsertKeepsOtherSlots(cmp, before, entries[n].yumPackage, name, arch);
    var i :| IsFirstNewest(cmp, prefix, i) && HasKey(prefix[i].yumPackage, name, arch)
      && prefix[i].yumPackage == before[name][arch];
    PrefixFirstNewest(cmp, entries, i);
  }

  /** Inserting a package leaves every slot of another (name, arch) as it was. */
  lemma InsertKeepsOtherSlots(cmp: Comparator, index: Index, p: YumPackage, name: string, arch: string)
    requires !HasKey(p, name, arch)
    ensures HasSlot(Insert(cmp, index, p), name, arch) <==> HasSlot(index, name, arch)
    ensures HasSlot(index, name, arch) ==> Insert(cmp, index, p)[name][arch] == index[name][arch]
  {
  }

  /** A first-newest position of a prefix stays one when a package of another slot is appended. */
  lemma PrefixFirstNewest(cmp: Comparator, entries: seq<YumEntry>, i: int)
    requires entries != []
    requires IsFirstNewest(cmp, entries[..|entries| - 1], i)
    requires !SameKey(entries[|entries| - 1].yumPackage, entries[i].yumPackage)
    ensures IsFirstNewest(cmp, entries, i)
  {
    var n := |entries| - 1;
    var prefix := entries[..n];
    assert forall j :: 0 <= j < n ==> prefix[j] == entries[j];
  }

  /** Step case: the last package is the first of its name and arch, so it fills the slot. */
  lemma FirstOfItsKey(cmp: Comparator, entries: seq<YumEntry>, name: string, arch: string)
    requires entries != []
    requires HasKey(entries[|entries| - 1].yumPackage, name, arch)
    requires !HasSlot(FindNewestPackages(cmp, entries[..|entries| - 1]), name, arch)
    ensures HasSlot(FindNewestPackages(cmp, entries), name, arch)
    ensures SlotIsFirstNewest(cmp, entries, name, arch)
  {
    var n := |entries| - 1;
    var prefix := entries[..n];
    var p := entries[n].yumPackage;
    IndexDomain(cmp, prefix, name, arch);
    forall j | 0 <= j < n
      ensures !SameKey(entries[j].yumPackage, p)
    {
      assert prefix[j] == entries[j];
    }
    assert IsFirstNewest(cmp, entries, n);
  }

  /** Step case: the slot is occupied, and the last package replaces the occupant only when strictly newer. */
  lemma OccupiedSlot(cmp: Comparator, entries: seq<YumEntry>, name: string, arch: string)
    requires IsVersionOrder(cmp)
    requires entries != []
    requires HasKey(entries[|entries| - 1].yumPackage, name, arch)
    requires HasSlot(FindNewestPackages(cmp, entries[..|entries| - 1]), name, arch)
    requires SlotIsFirstNewest(cmp, entries[..|entries| - 1], name, arch)
    ensures HasSlot(FindNewestPackages(cmp, entries), name, arch)
    ensures SlotIsFirstNewest(cmp, entries, name, arch)
  {
    var n := |entries| - 1;
    var prefix := entries[..n];
    var before := FindNewestPackages(cmp, prefix);
    var p := entries[n].yumPackage;
    var q := before[name][arch];
    var i :| IsFirstNewest(cmp, prefix, i) && HasKey(prefix[i].yumPackage, name, arch)
      && prefix[i].yumPackage == q;
    InsertIntoOccupiedSlot(cmp, before, p);
    assert prefix[i] == entries[i];
    if cmp(p.version, q.version) > 0 {
      NewerReplacesOccupant(cmp, entries, i);
    } else {
      OlderLeavesOccupant(cmp, entries, i);
    }
  }

  /** A strictly newer last package becomes the first newest of its slot. */
  lemma NewerReplacesOccupant(cmp: Comparator, entries: seq<YumEntry>, i: int)
    requires IsVersionOrder(cmp)
    requires entries != []
    requires IsFirstNewest(cmp, entries[..|entries| - 1], i)
    requires SameKey(entries[|entries| - 1].yumPackage, entries[i].yumPackage)
    requires cmp(entries[|entries| - 1].yumPackage.version, entries[i].yumPackage.version) > 0
    ensures IsFirstNewest(cmp, entries, |entries| - 1)
  {
    var n := |entries| - 1;
    var prefix := entries[..n];
    var p := entries[n].yumPackage;
    var q := entries[i].yumPackage;
    assert prefix[i] == entries[i];
    forall j | 0 <= j < n && SameKey(entries[j].yumPackage, p)
      ensures cmp(entries[j].yumPackage.version, p.version) < 0
    {
      assert prefix[j] == entries[j];
      assert cmp(entries[j].yumPackage.version, q.version) <= 0;
      CompareStrictRight(cmp, entries[j].yumPackage.version, q.version, p.version);
    }
  }

  /** A last package that is not strictly newer leaves the occupant the first newest of its slot. */
  lemma OlderLeavesOccupant(cmp: Comparator, entries: seq<YumEntry>, i: int)
    requires entries != []
    requires IsFirstNewest(cmp, entries[..|entries| - 1], i)
    requires SameKey(entries[|entries| - 1].yumPackage, entries[i].yumPackage)
    requires cmp(entries[|entries| - 1].yumPackage.version, entries[i].yumPackage.version) <= 0
    ensures IsFirstNewest(cmp, entries, i)
  {
    var n := |entries| - 1;
    var prefix := entries[..n];
    assert forall j :: 0 <= j < n ==> prefix[j] == entries[j];
  }

  /** Inserting into an occupied slot replaces the occupant exactly when the new package is strictly newer. */
  lemma InsertIntoOccupiedSlot(cmp: Comparator, index: Index, p: YumPackage)
    requires HasSlot(index, p.name, p.arch)
    ensures HasSlot(Insert(cmp, index, p), p.name, p.arch)
    ensures Insert(cmp, index, p)[p.name][p.arch]
      == if cmp(p.version, index[p.name][p.arch].version) > 0 then p else index[p.name][p.arch]
  {
  }

  /** At most one position is the first newest of a given (name, arch). */
  lemma FirstNewestIsUnique(cmp: Comparator, entries: seq<YumEntry>, i: int, k: int)
    requires IsVersionOrder(cmp)
    requires IsFirstNewest(cmp, entries, i) && IsFirstNewest(cmp, entries, k)
    requires SameKey(entries[i].yumPackage, entries[k].yumPackage)
    ensures i == k
  {
  }

  /** The package the index retains is the one at the first position with a maximal version. */
  lemma IndexRetainsFirstNewest(cmp: Comparator, entries: seq<YumEntry>, j: int)
    requires IsVersionOrder(cmp)
    requires IsFirstNewest(cmp, entries, j)
    ensures var p := entries[j].yumPackage;
      HasSlot(FindNewestPackages(cmp, entries), p.name, p.arch)
      && FindNewestPackages(cmp, entries)[p.name][p.arch] == p
  {
    var p := entries[j].yumPackage;
    IndexDomain(cmp, entries, p.name, p.arch);
    IndexKeepsFirstNewest(cmp, entries, p.name, p.arch);
    var i :| IsFirstNewest(cmp, entries, i) && HasKey(entries[i].yumPackage, p.name, p.arch)
      && entries[i].yumPackage == FindNewestPackages(cmp, entries)[p.name][p.arch];
    FirstNewestIsUnique(cmp, entries, i, j);
  }

  /** The retained package compares at least equal to every input package of its name and arch. */
  lemma NewestIsMaximal(cmp: Comparator, entries: seq<YumEntry>, name: string, arch: string)
    requires IsVersionOrder(cmp)
    requires Occurs(entries, name, arch)
    ensures HasSlot(FindNewestPackages(cmp, entries), name, arch)
    ensures forall j :: 0 <= j < |entries| && HasKey(entries[j].yumPackage, name, arch) ==>
      cmp(FindNewestPackages(cmp, entries)[name][arch].version, entries[j].yumPackage.version) >= 0
  {
    IndexDomain(cmp, entries, name, arch);
    IndexKeepsFirstNewest(cmp, entries, name, arch);
    var r := FindNewestPackages(cmp, entries)[name][arch];
    var i :| IsFirstNewest(cmp, entries, i) && HasKey(entries[i].yumPackage, name, arch)
      && entries[i].yumPackage == r;
    forall j | 0 <= j < |entries| && HasKey(entries[j].yumPackage, name, arch)
      ensures cmp(r.version, entries[j].yumPackage.version) >= 0
    {
      assert SameKey(entries[j].yumPackage, entries[i].yumPackage);
    }
  }

  /**
    On a tie the earlier package stays: when an input package compares equal to
    the retained one, the retained one occurs no later in the input.
  */
  lemma TiesKeepFirstSeen(cmp: Comparator, entries: seq<YumEntry>, j: int)
    requires IsVersionOrder(cmp)
    requires 0 <= j < |entries|
    ensures var p := entries[j].yumPackage;
      HasSlot(FindNewestPackages(cmp, entries), p.name, p.arch)
      && (cmp(p.version, FindNewestPackages(cmp, entries)[p.name][p.arch].version) == 0 ==>
            exists i :: 0 <= i <= j && entries[i].yumPackage == FindNewestPackages(cmp, entries)[p.name][p.arch])
  {
    var p := entries[j].yumPackage;
    IndexDomain(cmp, entries, p.name, p.arch);
    IndexKeepsFirstNewest(cmp, entries, p.name, p.arch);
  }

  /**
    The lookup finds nothing exactly when the repository has no package of that
    name and arch, and otherwise finds the first newest one.
  */
  lemma MatchingPackageIsNewest(cmp: Comparator, entries: seq<YumEntry>, p: YumPackage)
    requires IsVersionOrder(cmp)
    ensures var m := GetMatchingYumPackage(FindNewestPackages(cmp, entries), p);
      && (m.None? <==> !Occurs(entries, p.name, p.arch))
      && (m.Some? ==> SameKey(m.value, p)
                      && exists i :: IsFirstNewest(cmp, entries, i) && entries[i].yumPackage == m.value)
  {
    IndexDomain(cmp, entries, p.name, p.arch);
    if HasSlot(FindNewestPackages(cmp, entries), p.name, p.arch) {
      IndexKeepsFirstNewest(cmp, entries, p.name, p.arch);
    }
  }
}
