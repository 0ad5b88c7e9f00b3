/**
  The body of `DeleteObsoleteRPMsJob`: `deleteObsoleteRPMs` recomputes the
  obsolete set from the stores as they are when the job runs, derives a file
  descriptor from each location, and asks the storage to delete it, a failed
  delete being logged and the loop going on.
*/
module ObsoleteDeletion {
  import opened Packages
  import opened Propagation

  /** A stored RPM: repository, architecture directory and file name. */
  datatype FileDescriptor = FileDescriptor(repo: string, arch: string, filename: string)

  /*
    Java's `href.split("/")`: the pieces between slashes, trailing empty pieces
    removed, and the whole string when it has no slash.
  */

  /** The pieces between the slashes of `s`, empty ones included. */
  function SplitAtSlashes(s: string): (parts: seq<string>)
    ensures |parts| >= 1
    decreases |s|
  {
    if s == [] then [""]
    else
      var rest := SplitAtSlashes(s[1..]);
      if s[0] == '/' then [""] + rest
      else [[s[0]] + rest[0]] + rest[1..]
  }

  /** Splitting loses nothing: no piece holds a slash, and joining the pieces gives the string back. */
  lemma {:induction false} SplitJoinRoundTrip(s: string)
    ensures forall k :: 0 <= k < |SplitAtSlashes(s)| ==> '/' !in SplitAtSlashes(s)[k]
    ensures JoinWithSlashes(SplitAtSlashes(s)) == s
  {
    SplitPiecesSlashFree(s);
    JoinUndoesSplit(s);
  }

  lemma {:induction false} SplitPiecesSlashFree(s: string)
    ensures forall k :: 0 <= k < |SplitAtSlashes(s)| ==> '/' !in SplitAtSlashes(s)[k]
    decreases |s|
  {
    if s != [] {
      SplitPiecesSlashFree(s[1..]);
      var rest := SplitAtSlashes(s[1..]);
      if s[0] != '/' {
        assert SplitAtSlashes(s)[0] == [s[0]] + rest[0];
        assert forall k :: 1 <= k < |SplitAtSlashes(s)| ==> SplitAtSlashes(s)[k] == rest[k];
      }
    }
  }

  lemma {:induction false} JoinUndoesSplit(s: string)
    ensures JoinWithSlashes(SplitAtSlashes(s)) == s
    decreases |s|
  {
    if s != [] {
      var rest := SplitAtSlashes(s[1..]);
      JoinUndoesSplit(s[1..]);
      if s[0] == '/' {
        JoinAfterLeadingSlash(rest);
      } else {
        JoinAfterLeadingChar(s[0], rest);
      }
      assert s == [s[0]] + s[1..];
    }
  }

  lemma JoinAfterLeadingSlash(parts: seq<string>)
    requires |parts| >= 1
    ensures JoinWithSlashes([""] + parts) == "/" + JoinWithSlashes(parts)
  {
    assert ([""] + parts)[1..] == parts;
  }

  lemma JoinAfterLeadingChar(c: char, parts: seq<string>)
    requires |parts| >= 1
    ensures JoinWithSlashes([[c] + parts[0]] + parts[1..]) == [c] + JoinWithSlashes(parts)
  {
    var joined := [[c] + parts[0]] + parts[1..];
    assert joined[0] == [c] + parts[0];
    if |parts| > 1 {
      assert joined[1..] == parts[1..];
      var tail := JoinWithSlashes(parts[1..]);
      assert JoinWithSlashes(joined) == (([c] + parts[0]) + "/") + tail;
      assert JoinWithSlashes(parts) == (parts[0] + "/") + tail;
      SeqAppendAssoc([c], parts[0], "/");
      SeqAppendAssoc([c], parts[0] + "/", tail);
    }
  }

  lemma SeqAppendAssoc(a: string, b: string, c: string)
    ensures (a + b) + c == a + (b + c)
  {
  }

  /** The inverse of splitting: the pieces joined with one slash between neighbours. */
  function JoinWithSlashes(parts: seq<string>): string
    requires |parts| >= 1
    decreases |parts|
  {
    if |parts| == 1 then parts[0] else parts[0] + "/" + JoinWithSlashes(parts[1..])
  }

  function DropTrailingEmpty(parts: seq<string>): seq<string>
    decreases |parts|
  {
    if |parts| > 0 && |parts[|parts| - 1]| == 0 then DropTrailingEmpty(parts[..|parts| - 1]) else parts
  }

  function SplitHref(href: string): seq<string>
  {
    var parts := SplitAtSlashes(href);
    if |parts| == 1 then parts else DropTrailingEmpty(parts)
  }

  /** The location splits into at least two pieces, so `strings[1]` exists. */
  predicate HasArchAndFile(href: string)
  {
    |SplitHref(href)| >= 2
  }

  /** `new FileDescriptor(sourceRepo, strings[0], strings[1])`. */
  function DescriptorOf(repo: string, href: string): FileDescriptor
    requires HasArchAndFile(href)
  {
    var strings := SplitHref(href);
    FileDescriptor(repo, strings[0], strings[1])
  }

  lemma {:induction false} SplitSlashFree(x: string)
    requires '/' !in x
    ensures SplitAtSlashes(x) == [x]
    decreases |x|
  {
    if x != [] {
      assert '/' !in x[1..];
      SplitSlashFree(x[1..]);
      assert x == [x[0]] + x[1..];
    }
  }

  lemma {:induction false} SplitTwoPieces(a: string, b: string)
    requires '/' !in a && '/' !in b
    ensures SplitAtSlashes(a + "/" + b) == [a, b]
    decreases |a|
  {
    if a == [] {
      assert a + "/" + b == ['/'] + b;
      assert (a + "/" + b)[1..] == b;
      SplitSlashFree(b);
    } else {
      assert (a + "/" + b)[1..] == a[1..] + "/" + b;
      assert '/' !in a[1..];
      SplitTwoPieces(a[1..], b);
      assert a == [a[0]] + a[1..];
    }
  }

  /**
    A location of the form `arch/filename` (no slash inside either part, a
    non-empty file name) yields the descriptor of that arch and file in the
    given repository.
  */
  lemma DescriptorOfArchAndFile(repo: string, arch: string, filename: string)
    requires '/' !in arch && '/' !in filename && filename != ""
    ensures HasArchAndFile(arch + "/" + filename)
    ensures DescriptorOf(repo, arch + "/" + filename) == FileDescriptor(repo, arch, filename)
  {
    SplitTwoPieces(arch, filename);
  }

  /** A slash is not enough: a trailing one is dropped with its empty piece, and `strings[1]` is missing. */
  lemma TrailingSlashLeavesOnePiece()
    ensures SplitHref("noarch/") == ["noarch"]
    ensures !HasArchAndFile("noarch/")
  {
    assert "noarch/" == "noarch" + "/" + "";
    SplitTwoPieces("noarch", "");
    assert DropTrailingEmpty(["noarch", ""]) == DropTrailingEmpty(["noarch"]);
  }

  /*
    The blob side of the deletion. `StorageService` is not part of this model:
    a delete removes a stored file, fails with NotFound for a file that is not
    stored, and fails for reasons outside the model for the files in
    `unavailable`.
  */

  datatype DeleteFailure = NotFound | Unavailable

  datatype DeleteOutcome = Deleted | Failed(reason: DeleteFailure)

  datatype BlobStore = BlobStore(present: set<FileDescriptor>, unavailable: set<FileDescriptor>)

  function StorageDelete(blobs: BlobStore, d: FileDescriptor): (r: (BlobStore, DeleteOutcome))
    ensures r.0.unavailable == blobs.unavailable
    ensures r.0.present == if r.1 == Deleted then blobs.present - {d} else blobs.present
    ensures r.1 == Deleted <==> d in blobs.present && d !in blobs.unavailable
    ensures r.1 == Failed(Unavailable) <==> d in blobs.unavailable
  {
    if d in blobs.unavailable then (blobs, Failed(Unavailable))
    else if d !in blobs.present then (blobs, Failed(NotFound))
    else (blobs.(present := blobs.present - {d}), Deleted)
  }

  /** A view and the descriptor derived from it, before the delete is tried. */
  datatype Planned = Planned(view: YumPackageReducedView, descriptor: FileDescriptor)

  /** One iteration of the job: the view, the descriptor derived from it, and what the storage answered. */
  datatype DeleteAttempt = DeleteAttempt(view: YumPackageReducedView, descriptor: FileDescriptor, outcome: DeleteOutcome)

  /** The descriptors the job derives from a set of views. */
  function Descriptors(repo: string, views: set<YumPackageReducedView>): set<FileDescriptor>
  {
    set v | v in views && HasArchAndFile(v.location.href) :: DescriptorOf(repo, v.location.href)
  }

  /** The descriptors a sequence of attempts asked the storage to delete. */
  function Attempted(attempts: seq<DeleteAttempt>): (r: set<FileDescriptor>)
    ensures forall d :: d in r <==> exists k :: 0 <= k < |attempts| && attempts[k].descriptor == d
  {
    set a | a in attempts :: a.descriptor
  }

  lemma AttemptedGrow(attempts: seq<DeleteAttempt>, a: DeleteAttempt)
    ensures Attempted(attempts + [a]) == Attempted(attempts) + {a.descriptor}
  {
    var longer := attempts + [a];
    assert longer[|attempts|] == a;
    assert forall k :: 0 <= k < |attempts| ==> longer[k] == attempts[k];
  }

  /**
    `current` is the blob store the job started from, less the files of
    `targets` whose delete can succeed; nothing else changed.
  */
  ghost predicate Balanced(blobs: BlobStore, current: BlobStore, targets: set<FileDescriptor>)
  {
    && current.unavailable == blobs.unavailable
    && forall f :: f in current.present <==> (f in blobs.present && (f !in targets || f in blobs.unavailable))
  }

  /** One more delete keeps the blob store balanced against one more target. */
  lemma DeleteKeepsBalance(blobs: BlobStore, current: BlobStore, targets: set<FileDescriptor>, d: FileDescriptor)
    requires Balanced(blobs, current, targets)
    ensures Balanced(blobs, StorageDelete(current, d).0, targets + {d})
  {
  }

  /** What the storage answers, judged against the blob store the job started from. */
  lemma OutcomeAgainstStart(blobs: BlobStore, current: BlobStore, targets: set<FileDescriptor>, d: FileDescriptor)
    requires Balanced(blobs, current, targets)
    ensures StorageDelete(current, d).1 == Failed(Unavailable) <==> d in blobs.unavailable
    ensures StorageDelete(current, d).1 == Deleted ==> d in blobs.present
  {
  }

  /**
    How many views, from the front, have a location that splits into an arch
    and a file name: the job reaches `strings[1]` of the next one and stops.
  */
  function SplittablePrefix(order: seq<YumPackageReducedView>): (n: nat)
    ensures n <= |order|
    ensures forall k :: 0 <= k < n ==> HasArchAndFile(order[k].location.href)
    ensures n < |order| ==> !HasArchAndFile(order[n].location.href)
    decreases |order|
  {
    if order == [] || !HasArchAndFile(order[0].location.href) then 0
    else 1 + SplittablePrefix(order[1..])
  }

  /** The descriptor of every view, in the order the views are visited. */
  function Plan(repo: string, order: seq<YumPackageReducedView>): (plan: seq<Planned>)
    requires forall k :: 0 <= k < |order| ==> HasArchAndFile(order[k].location.href)
    ensures |plan| == |order|
    ensures forall k :: 0 <= k < |order| ==>
      plan[k] == Planned(order[k], DescriptorOf(repo, order[k].location.href))
    decreases |order|
  {
    if order == [] then []
    else
      var last := order[|order| - 1];
      Plan(repo, order[..|order| - 1]) + [Planned(last, DescriptorOf(repo, last.location.href))]
  }

  /** The plan of the views visited before the first one whose location does not split. */
  function PrefixPlan(repo: string, order: seq<YumPackageReducedView>): (plan: seq<Planned>)
    ensures |plan| == SplittablePrefix(order)
    ensures forall k :: 0 <= k < |plan| ==>
      plan[k] == Planned(order[k], DescriptorOf(repo, order[k].location.href))
  {
    Plan(repo, order[..SplittablePrefix(order)])
  }

  /**
    The loop of `deleteObsoleteRPMs` over its plan: one delete per view, each
    tried whatever the earlier ones answered.
  */
  function DeleteInOrder(plan: seq<Planned>, blobs: BlobStore): (r: (seq<DeleteAttempt>, BlobStore))
    ensures |r.0| == |plan|
    ensures forall k :: 0 <= k < |plan| ==>
      r.0[k].view == plan[k].view && r.0[k].descriptor == plan[k].descriptor
    decreases |plan|
  {
    if plan == [] then ([], blobs)
    else
      var before := DeleteInOrder(plan[..|plan| - 1], blobs);
      var step := plan[|plan| - 1];
      var deletion := StorageDelete(before.1, step.descriptor);
      (before.0 + [DeleteAttempt(step.view, step.descriptor, deletion.1)], deletion.0)
  }

  /** Carrying out one more step of a plan appends its attempt. */
  lemma DeleteInOrderExtend(plan: seq<Planned>, i: nat, blobs: BlobStore)
    requires i < |plan|
    ensures var before := DeleteInOrder(plan[..i], blobs);
      var deletion := StorageDelete(before.1, plan[i].descriptor);
      DeleteInOrder(plan[..i + 1], blobs) == (before.0 + [DeleteAttempt(plan[i].view, plan[i].descriptor, deletion.1)], deletion.0)
  {
    assert plan[..i + 1][..i] == plan[..i];
  }

  /**
    After some deletes, the blob store the job started from has lost exactly
    the attempted files whose delete could succeed.
  */
  lemma {:induction false} DeleteInOrderBalance(plan: seq<Planned>, blobs: BlobStore)
    ensures Balanced(blobs, DeleteInOrder(plan, blobs).1, Attempted(DeleteInOrder(plan, blobs).0))
    decreases |plan|
  {
    if plan != [] {
      var prefix := plan[..|plan| - 1];
      var d := plan[|plan| - 1].descriptor;
      DeleteInOrderBalance(prefix, blobs);
      DeleteKeepsBalance(blobs, DeleteInOrder(prefix, blobs).1, Attempted(DeleteInOrder(prefix, blobs).0), d);
      var attempt := DeleteAttempt(plan[|plan| - 1].view, d, StorageDelete(DeleteInOrder(prefix, blobs).1, d).1);
      AttemptedGrow(DeleteInOrder(prefix, blobs).0, attempt);
      assert DeleteInOrder(plan, blobs).0 == DeleteInOrder(prefix, blobs).0 + [attempt];
    }
  }

  /** Every answer of the storage agrees with the blob store the job started from. */
  lemma {:induction false} DeleteInOrderAnswers(plan: seq<Planned>, blobs: BlobStore)
    ensures var r := DeleteInOrder(plan, blobs);
      && (forall k :: 0 <= k < |plan| ==>
            (r.0[k].outcome == Failed(Unavailable) <==> r.0[k].descriptor in blobs.unavailable))
      && (forall k :: 0 <= k < |plan| && r.0[k].outcome == Deleted ==> r.0[k].descriptor in blobs.present)
    decreases |plan|
  {
    if plan != [] {
      var prefix := plan[..|plan| - 1];
      var d := plan[|plan| - 1].descriptor;
      DeleteInOrderAnswers(prefix, blobs);
      DeleteInOrderBalance(prefix, blobs);
      OutcomeAgainstStart(blobs, DeleteInOrder(prefix, blobs).1, Attempted(DeleteInOrder(prefix, blobs).0), d);
      assert DeleteInOrder(plan, blobs).0 == DeleteInOrder(prefix, blobs).0
        + [DeleteAttempt(plan[|plan| - 1].view, d, StorageDelete(DeleteInOrder(prefix, blobs).1, d).1)];
    }
  }

  /**
    A delete succeeds exactly when the file was stored at the start, is not
    unavailable, and no earlier delete of the job removed it already.
  */
  lemma {:induction false} DeleteInOrderDeletedOnFirstTry(plan: seq<Planned>, blobs: BlobStore)
    ensures var r := DeleteInOrder(plan, blobs);
      forall k :: 0 <= k < |plan| ==>
        (r.0[k].outcome == Deleted <==>
           (&& plan[k].descriptor in blobs.present
            && plan[k].descriptor !in blobs.unavailable
            && forall j :: 0 <= j < k ==> plan[j].descriptor != plan[k].descriptor))
    decreases |plan|
  {
    if plan != [] {
      var n := |plan| - 1;
      var prefix := plan[..n];
      var d := plan[n].descriptor;
      var before := DeleteInOrder(prefix, blobs);
      DeleteInOrderDeletedOnFirstTry(prefix, blobs);
      DeleteInOrderBalance(prefix, blobs);
      DeleteAgainstStart(blobs, before.1, Attempted(before.0), d);
      assert DeleteInOrder(plan, blobs).0 == before.0 + [DeleteAttempt(plan[n].view, d, StorageDelete(before.1, d).1)];
      assert d in Attempted(before.0) <==> exists j :: 0 <= j < n && plan[j].descriptor == d by {
        assert forall j :: 0 <= j < n ==> before.0[j].descriptor == plan[j].descriptor;
      }
    }
  }

  /** A delete against a balanced store succeeds exactly for a stored, available file not yet targeted. */
  lemma DeleteAgainstStart(blobs: BlobStore, current: BlobStore, targets: set<FileDescriptor>, d: FileDescriptor)
    requires Balanced(blobs, current, targets)
    ensures StorageDelete(current, d).1 == Deleted <==>
      (d in blobs.present && d !in blobs.unavailable && d !in targets)
  {
  }

  /**
    Carrying out a plan over the front of an enumeration of a set tries views
    of the set, each at most once, and every view of it when the plan covers
    the whole enumeration.
  */
  lemma PlanVisitsEachViewOnce(views: set<YumPackageReducedView>, order: seq<YumPackageReducedView>,
                               plan: seq<Planned>, blobs: BlobStore)
    requires |order| == |views|
    requires forall v :: v in order <==> v in views
    requires forall k, l :: 0 <= k < l < |order| ==> order[k] != order[l]
    requires |plan| <= |order| && forall k :: 0 <= k < |plan| ==> plan[k].view == order[k]
    ensures var r := DeleteInOrder(plan, blobs);
      && |r.0| <= |views|
      && (forall k :: 0 <= k < |r.0| ==> r.0[k].view in views)
      && (forall k, l :: 0 <= k < l < |r.0| ==> r.0[k].view != r.0[l].view)
      && (|plan| == |order| ==>
            |r.0| == |views| && forall v :: v in views ==> exists k :: 0 <= k < |r.0| && r.0[k].view == v)
  {
    var r := DeleteInOrder(plan, blobs);
    if |plan| == |order| {
      forall v | v in views
        ensures exists k :: 0 <= k < |r.0| && r.0[k].view == v
      {
        var k :| 0 <= k < |order| && order[k] == v;
        assert r.0[k].view == v;
      }
    }
  }

  /** Visiting every view of a set asks the storage to delete exactly the descriptors of the set. */
  lemma CompleteRunAttemptsAllDescriptors(repo: string, views: set<YumPackageReducedView>,
                                          order: seq<YumPackageReducedView>, blobs: BlobStore)
    requires forall k :: 0 <= k < |order| ==> HasArchAndFile(order[k].location.href)
    requires forall v :: v in order <==> v in views
    ensures Attempted(DeleteInOrder(Plan(repo, order), blobs).0) == Descriptors(repo, views)
  {
    var plan := Plan(repo, order);
    var r := DeleteInOrder(plan, blobs);
    forall d | d in Descriptors(repo, views)
      ensures d in Attempted(r.0)
    {
      var v :| v in views && HasArchAndFile(v.location.href) && DescriptorOf(repo, v.location.href) == d;
      var k :| 0 <= k < |order| && order[k] == v;
      assert r.0[k].descriptor == d;
    }
    forall d | d in Attempted(r.0)
      ensures d in Descriptors(repo, views)
    {
      var k :| 0 <= k < |r.0| && r.0[k].descriptor == d;
      assert order[k] in views;
    }
  }

  /** The job stops early exactly when some view's location does not split into an arch and a file name. */
  lemma StopsIffUnsplittable(views: set<YumPackageReducedView>, order: seq<YumPackageReducedView>)
    requires forall v :: v in order <==> v in views
    ensures SplittablePrefix(order) < |order| <==> exists v :: v in views && !HasArchAndFile(v.location.href)
  {
    var n := SplittablePrefix(order);
    if n < |order| {
      assert order[n] in views;
    } else {
      forall v | v in views
        ensures HasArchAndFile(v.location.href)
      {
        var k :| 0 <= k < |order| && order[k] == v;
      }
    }
  }

  /**
    The job over an enumeration of a set stops early exactly on an unsplittable
    location, and tries views of the set, each at most once and with its own
    descriptor, all of them when it does not stop early.
  */
  lemma RunVisitsViews(repo: string, views: set<YumPackageReducedView>, order: seq<YumPackageReducedView>, blobs: BlobStore)
    requires |order| == |views|
    requires forall v :: v in order <==> v in views
    requires forall k, l :: 0 <= k < l < |order| ==> order[k] != order[l]
    ensures var n := SplittablePrefix(order);
      var r := DeleteInOrder(PrefixPlan(repo, order), blobs);
      && (n < |order| <==> exists v :: v in views && !HasArchAndFile(v.location.href))
      && |r.0| <= |views|
      && (forall k :: 0 <= k < |r.0| ==>
            && r.0[k].view in views
            && HasArchAndFile(r.0[k].view.location.href)
            && r.0[k].descriptor == DescriptorOf(repo, r.0[k].view.location.href))
      && (forall k, l :: 0 <= k < l < |r.0| ==> r.0[k].view != r.0[l].view)
      && (n == |order| ==> forall v :: v in views ==> exists k :: 0 <= k < |r.0| && r.0[k].view == v)
  {
    var n := SplittablePrefix(order);
    StopsIffUnsplittable(views, order);
    PlanVisitsEachViewOnce(views, order, PrefixPlan(repo, order), blobs);
  }

  /**
    What the job over an enumeration of a set leaves in the blob store: the
    storage's answers agree with the store it started from, which has lost the
    attempted files, and those are the set's files when it does not stop early.
  */
  lemma RunDeletesAttempted(repo: string, views: set<YumPackageReducedView>, order: seq<YumPackageReducedView>, blobs: BlobStore)
    requires forall v :: v in order <==> v in views
    ensures var n := SplittablePrefix(order);
      var r := DeleteInOrder(PrefixPlan(repo, order), blobs);
      && (forall k :: 0 <= k < |r.0| ==>
            (r.0[k].outcome == Failed(Unavailable) <==> r.0[k].descriptor in blobs.unavailable))
      && (forall k :: 0 <= k < |r.0| && r.0[k].outcome == Deleted ==> r.0[k].descriptor in blobs.present)
      && Balanced(blobs, r.1, Attempted(r.0))
      && (n == |order| ==> Attempted(r.0) == Descriptors(repo, views))
  {
    var n := SplittablePrefix(order);
    var plan := PrefixPlan(repo, order);
    DeleteInOrderAnswers(plan, blobs);
    DeleteInOrderBalance(plan, blobs);
    if n == |order| {
      assert order[..n] == order;
      assert plan == Plan(repo, order);
      CompleteRunAttemptsAllDescriptors(repo, views, order, blobs);
    }
  }

  /**
    `deleteObsoleteRPMs`: recomputes the obsolete set from the stores as they
    are now and deletes each of its files. `aborted` is the job ending with an
    exception on a location that does not split into an arch and a file name.
  */
  method DeleteObsoleteRPMs(cmp: Comparator, store: YumEntries, blobs: BlobStore, targetRepo: string, sourceRepo: string)
    returns (order: seq<YumPackageReducedView>, attempts: seq<DeleteAttempt>, after: BlobStore, aborted: bool)
    ensures |order| == |GetObsoleteRPMs(cmp, store, targetRepo, sourceRepo)|
    ensures forall v :: v in order <==> v in GetObsoleteRPMs(cmp, store, targetRepo, sourceRepo)
    ensures forall k, l :: 0 <= k < l < |order| ==> order[k] != order[l]
    ensures |attempts| == SplittablePrefix(order)
    ensures forall k :: 0 <= k < |attempts| ==> attempts[k].view == order[k]
    ensures aborted <==> exists v :: v in GetObsoleteRPMs(cmp, store, targetRepo, sourceRepo) && !HasArchAndFile(v.location.href)
    ensures |attempts| <= |GetObsoleteRPMs(cmp, store, targetRepo, sourceRepo)|
    ensures forall k :: 0 <= k < |attempts| ==>
      && attempts[k].view in GetObsoleteRPMs(cmp, store, targetRepo, sourceRepo)
      && HasArchAndFile(attempts[k].view.location.href)
      && attempts[k].descriptor == DescriptorOf(sourceRepo, attempts[k].view.location.href)
    ensures forall k, l :: 0 <= k < l < |attempts| ==> attempts[k].view != attempts[l].view
    ensures !aborted ==> forall v :: v in GetObsoleteRPMs(cmp, store, targetRepo, sourceRepo) ==>
      exists k :: 0 <= k < |attempts| && attempts[k].view == v
    ensures forall k :: 0 <= k < |attempts| ==>
      (attempts[k].outcome == Failed(Unavailable) <==> attempts[k].descriptor in blobs.unavailable)
    ensures forall k :: 0 <= k < |attempts| && attempts[k].outcome == Deleted ==>
      attempts[k].descriptor in blobs.present
    ensures forall k :: 0 <= k < |attempts| ==>
      (attempts[k].outcome == Deleted <==>
         (&& attempts[k].descriptor in blobs.present
          && attempts[k].descriptor !in blobs.unavailable
          && forall j :: 0 <= j < k ==> attempts[j].descriptor != attempts[k].descriptor))
    ensures after.unavailable == blobs.unavailable
    ensures forall f :: f in after.present <==>
      (f in blobs.present && (f !in Attempted(attempts) || f in blobs.unavailable))
    ensures !aborted ==> Attempted(attempts) == Descriptors(sourceRepo, GetObsoleteRPMs(cmp, store, targetRepo, sourceRepo))
  {
    var obsoleteRPMs := GetObsoleteRPMs(cmp, store, targetRepo, sourceRepo);
    order, attempts, after, aborted := DeleteEach(sourceRepo, obsoleteRPMs, blobs);
  }

  /**
    The loop of `deleteObsoleteRPMs` over a set of views, in whatever order the
    set is visited. It stops at the first view whose location does not split
    into an arch and a file name. The file of every view visited before that
    one is gone from the blob store afterwards, except those whose delete failed
    for reasons outside the model, and no other file was touched. `order` is
    the order the set was visited in.
  */
  method DeleteEach(sourceRepo: string, views: set<YumPackageReducedView>, blobs: BlobStore)
    returns (order: seq<YumPackageReducedView>, attempts: seq<DeleteAttempt>, after: BlobStore, aborted: bool)
    ensures |order| == |views|
    ensures forall v :: v in order <==> v in views
    ensures forall k, l :: 0 <= k < l < |order| ==> order[k] != order[l]
    ensures |attempts| == SplittablePrefix(order)
    ensures forall k :: 0 <= k < |attempts| ==> attempts[k].view == order[k]
    ensures aborted <==> exists v :: v in views && !HasArchAndFile(v.location.href)
    ensures |attempts| <= |views|
    ensures forall k :: 0 <= k < |attempts| ==>
      && attempts[k].view in views
      && HasArchAndFile(attempts[k].view.location.href)
      && attempts[k].descriptor == DescriptorOf(sourceRepo, attempts[k].view.location.href)
    ensures forall k, l :: 0 <= k < l < |attempts| ==> attempts[k].view != attempts[l].view
    ensures !aborted ==> forall v :: v in views ==> exists k :: 0 <= k < |attempts| && attempts[k].view == v
    ensures forall k :: 0 <= k < |attempts| ==>
      (attempts[k].outcome == Failed(Unavailable) <==> attempts[k].descriptor in blobs.unavailable)
    ensures forall k :: 0 <= k < |attempts| && attempts[k].outcome == Deleted ==>
      attempts[k].descriptor in blobs.present
    ensures forall k :: 0 <= k < |attempts| ==>
      (attempts[k].outcome == Deleted <==>
         (&& attempts[k].descriptor in blobs.present
          && attempts[k].descriptor !in blobs.unavailable
          && forall j :: 0 <= j < k ==> attempts[j].descriptor != attempts[k].descriptor))
    ensures after.unavailable == blobs.unavailable
    ensures forall f :: f in after.present <==>
      (f in blobs.present && (f !in Attempted(attempts) || f in blobs.unavailable))
    ensures !aborted ==> Attempted(attempts) == Descriptors(sourceRepo, views)
  {
    order := Enumerate(views);
    var n := SplittablePrefix(order);
    // Splitting a location has no effect, so deriving the descriptors up to the
    // first unsplittable location before the first delete is the same as
    // deriving each one just before its delete.
    attempts, after := RunPlan(PrefixPlan(sourceRepo, order), blobs);
    aborted := n < |order|;
    RunVisitsViews(sourceRepo, views, order, blobs);
    RunDeletesAttempted(sourceRepo, views, order, blobs);
  }

  /**
    The loop of the job: one storage delete per planned file, in plan order.
    Every planned file is tried whatever the earlier deletes answered, each
    answer agrees with the blob store the loop started from, and the store
    afterwards has lost exactly the tried files whose delete could succeed.
  */
  method RunPlan(plan: seq<Planned>, blobs: BlobStore) returns (attempts: seq<DeleteAttempt>, after: BlobStore)
    ensures |attempts| == |plan|
    ensures forall k :: 0 <= k < |plan| ==>
      attempts[k].view == plan[k].view && attempts[k].descriptor == plan[k].descriptor
    ensures forall k :: 0 <= k < |attempts| ==>
      (attempts[k].outcome == Failed(Unavailable) <==> attempts[k].descriptor in blobs.unavailable)
    ensures forall k :: 0 <= k < |attempts| && attempts[k].outcome == Deleted ==>
      attempts[k].descriptor in blobs.present
    ensures forall k :: 0 <= k < |attempts| ==>
      (attempts[k].outcome == Deleted <==>
         (&& attempts[k].descriptor in blobs.present
          && attempts[k].descriptor !in blobs.unavailable
          && forall j :: 0 <= j < k ==> attempts[j].descriptor != attempts[k].descriptor))
    ensures Balanced(blobs, after, Attempted(attempts))
    ensures (attempts, after) == DeleteInOrder(plan, blobs)
  {
    attempts := [];
    after := blobs;
    var i := 0;
    while i < |plan|
      invariant 0 <= i <= |plan|
      invariant (attempts, after) == DeleteInOrder(plan[..i], blobs)
    {
      var deletion := StorageDelete(after, plan[i].descriptor);
      DeleteInOrderExtend(plan, i, blobs);
      attempts := attempts + [DeleteAttempt(plan[i].view, plan[i].descriptor, deletion.1)];
      after := deletion.0;
      i := i + 1;
    }
    assert plan[..i] == plan;
    DeleteInOrderAnswers(plan, blobs);
    DeleteInOrderDeletedOnFirstTry(plan, blobs);
    DeleteInOrderBalance(plan, blobs);
  }

  /** The elements of a set, each once, in some order. */
  method Enumerate(views: set<YumPackageReducedView>) returns (order: seq<YumPackageReducedView>)
    ensures |order| == |views|
    ensures forall v :: v in order <==> v in views
    ensures forall k, l :: 0 <= k < l < |order| ==> order[k] != order[l]
  {
    order := [];
    var remaining := views;
    while remaining != {}
      invariant remaining <= views
      invariant |order| + |remaining| == |views|
      invariant forall v :: v in order <==> v in views && v !in remaining
      invariant forall k, l :: 0 <= k < l < |order| ==> order[k] != order[l]
      decreases remaining
    {
      var v :| v in remaining;
      order := order + [v];
      remaining := remaining - {v};
    }
  }
}
