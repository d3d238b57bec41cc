/**
  The build lane: every build file the root one reaches, collected depth first and capped.
 */
module BuildLane {
  import opened Options

  type Path = string

  /** The most files the lane will hold. */
  const MAXIMUM_SCANNED_FILES: nat := 65_536

  /**
    What each readable build file refers to, in the order its lines do; nothing for any other. Paths
    are compared as they are spelt, so a few files can give a relation without end.
   */
  type References = Path -> Option<seq<Path>>

  ghost predicate Refers(files: References, from: Path, to: Path) {
    files(from).Some? && to in files(from).value
  }

  ghost predicate TakesReference(files: References, trail: seq<Path>, k: int) {
    0 <= k < |trail| - 1 && Refers(files, trail[k], trail[k + 1])
  }

  ghost predicate IsTrail(files: References, trail: seq<Path>, from: Path, to: Path) {
    && trail != [] && trail[0] == from && trail[|trail| - 1] == to
    && forall k :: 0 <= k < |trail| - 1 ==> TakesReference(files, trail, k)
  }

  /** The least relation that holds the starting file and is closed under references. */
  ghost predicate Reaches(files: References, from: Path, to: Path) {
    exists trail :: IsTrail(files, trail, from, to)
  }

  lemma ReachesItself(files: References, path: Path)
    ensures Reaches(files, path, path)
  {
    assert IsTrail(files, [path], path, path);
  }

  lemma ReachesFurther(files: References, from: Path, middle: Path, to: Path)
    requires Reaches(files, from, middle) && Refers(files, middle, to)
    ensures Reaches(files, from, to)
  {
    var trail :| IsTrail(files, trail, from, middle);
    var longer := trail + [to];
    forall k | 0 <= k < |longer| - 1 ensures TakesReference(files, longer, k) {
      assert k < |trail| - 1 ==> TakesReference(files, trail, k);
    }
    assert IsTrail(files, longer, from, to);
  }

  /** What an end of a chain of references reaches, its start reaches. */
  lemma {:induction false} ReachesThrough(files: References, from: Path, middle: Path, trail: seq<Path>, to: Path)
    requires Reaches(files, from, middle) && IsTrail(files, trail, middle, to)
    ensures Reaches(files, from, to)
    decreases |trail|
  {
    if |trail| > 1 {
      var shorter, last := trail[..|trail| - 1], trail[|trail| - 2];
      forall k | 0 <= k < |shorter| - 1 ensures TakesReference(files, shorter, k) {
        assert TakesReference(files, trail, k);
      }
      ReachesThrough(files, from, middle, shorter, last);
      assert TakesReference(files, trail, |trail| - 2);
      ReachesFurther(files, from, last, to);
    }
  }

  predicate HasNoDuplicates(lane: seq<Path>) {
    forall i, j | 0 <= i < j < |lane| :: lane[i] != lane[j]
  }

  /** Everything the listed file refers to is listed too. */
  ghost predicate Followed(files: References, lane: seq<Path>, path: Path) {
    forall to :: Refers(files, path, to) ==> to in lane
  }

  // ---- depth first, references in order

  predicate IsFirstUnlisted(references: seq<Path>, listed: seq<Path>, j: int) {
    0 <= j < |references| && references[j] !in listed && forall m | 0 <= m < j :: references[m] in listed
  }

  /** The file at `k` is the first reference not listed before it of the latest file that has one. */
  ghost predicate ComesFrom(files: References, lane: seq<Path>, k: int, i: int) {
    && 0 <= i < k < |lane| && files(lane[i]).Some?
    && (exists j :: IsFirstUnlisted(files(lane[i]).value, lane[..k], j) && files(lane[i]).value[j] == lane[k])
    && (forall m | i < m < k :: Followed(files, lane[..k], lane[m]))
  }

  ghost predicate IsNext(files: References, lane: seq<Path>, k: int) {
    exists i :: ComesFrom(files, lane, k, i)
  }

  ghost predicate IsDepthFirst(files: References, root: Path, lane: seq<Path>) {
    lane != [] && lane[0] == root && forall k | 0 < k < |lane| :: IsNext(files, lane, k)
  }

  lemma NextIsKept(files: References, lane: seq<Path>, longer: seq<Path>, k: int)
    requires lane <= longer && IsNext(files, lane, k)
    ensures IsNext(files, longer, k)
  {
    var i :| ComesFrom(files, lane, k, i);
    assert longer[..k] == lane[..k];
    assert ComesFrom(files, longer, k, i);
  }

  lemma NextFollows(files: References, before: seq<Path>, lane: seq<Path>, p: nat, n: nat)
    requires before <= lane && p < |before| < |lane| && files(before[p]).Some?
    requires n < |files(before[p]).value| && lane[|before|] == files(before[p]).value[n] && lane[|before|] !in before
    requires forall m | 0 <= m < n :: files(before[p]).value[m] in before
    requires forall m | p < m < |before| :: Followed(files, before, before[m])
    ensures IsNext(files, lane, |before|)
  {
    assert lane[..|before|] == before;
    assert IsFirstUnlisted(files(lane[p]).value, lane[..|before|], n);
    assert ComesFrom(files, lane, |before|, p);
  }

  /** The order determines the lane: two of them agree as far as both go. */
  lemma {:induction false} DepthFirstIsUnique(files: References, root: Path, left: seq<Path>, right: seq<Path>, k: nat)
    requires IsDepthFirst(files, root, left) && IsDepthFirst(files, root, right) && k <= |left| && k <= |right|
    ensures left[..k] == right[..k]
  {
    if k > 0 {
      DepthFirstIsUnique(files, root, left, right, k - 1);
      assert left[..k] == left[..k - 1] + [left[k - 1]] && right[..k] == right[..k - 1] + [right[k - 1]];
      if k > 1 {
        NextIsUnique(files, left, right, k - 1);
      }
    }
  }

  lemma NoLaterOrigin(files: References, left: seq<Path>, right: seq<Path>, k: nat, i: int, j: int)
    requires k < |left| && k < |right| && left[..k] == right[..k]
    requires ComesFrom(files, left, k, i) && ComesFrom(files, right, k, j)
    ensures j <= i && left[i] == left[..k][i] && right[j] == left[..k][j]
  {
    assert left[..k][i] == left[i] && left[..k][j] == left[j] && right[..k][j] == right[j];
    assert i < j ==> Followed(files, left[..k], left[j]);
    assert Refers(files, right[j], right[k]);
    assert right[k] !in right[..k];
  }

  lemma NextIsUnique(files: References, left: seq<Path>, right: seq<Path>, k: nat)
    requires 0 < k < |left| && k < |right| && left[..k] == right[..k] && IsNext(files, left, k) && IsNext(files, right, k)
    ensures left[k] == right[k]
  {
    var i :| ComesFrom(files, left, k, i);
    var j :| ComesFrom(files, right, k, j);
    NoLaterOrigin(files, left, right, k, i, j);
    NoLaterOrigin(files, right, left, k, j, i);
  }

  class Follower {
    const files: References
    var lane: seq<Path>

    constructor (files: References)
      ensures this.files == files && lane == []
    {
      this.files := files;
      lane := [];
    }

    /** Adds this file and then, in the order of its references, everything they lead to. */
    method FollowBuildLane(path: Path)
      requires HasNoDuplicates(lane) && |lane| <= MAXIMUM_SCANNED_FILES
      modifies this
      ensures HasNoDuplicates(lane) && |lane| <= MAXIMUM_SCANNED_FILES
      ensures old(lane) <= lane && (path in old(lane) || |old(lane)| == MAXIMUM_SCANNED_FILES ==> lane == old(lane))
      ensures |lane| > |old(lane)| ==> lane[|old(lane)|] == path
      ensures forall k | |old(lane)| < k < |lane| :: IsNext(files, lane, k)
      ensures forall k | |old(lane)| <= k < |lane| :: Reaches(files, path, lane[k])
      ensures |lane| < MAXIMUM_SCANNED_FILES ==>
                path in lane && forall k | |old(lane)| <= k < |lane| :: Followed(files, lane, lane[k])
      decreases MAXIMUM_SCANNED_FILES - |lane|, 1
    {
      if path in lane {
        return;
      }
      if |lane| >= MAXIMUM_SCANNED_FILES {
        return;
      }
      lane := lane + [path];
      ReachesItself(files, path);
      if files(path).None? {
        return;
      }
      FollowReferences(path);
    }

    method FollowReferences(path: Path)
      requires HasNoDuplicates(lane) && 0 < |lane| <= MAXIMUM_SCANNED_FILES
      requires files(path).Some? && lane[|lane| - 1] == path
      modifies this
      ensures HasNoDuplicates(lane) && |lane| <= MAXIMUM_SCANNED_FILES
      ensures old(lane) <= lane
      ensures forall k | |old(lane)| <= k < |lane| :: IsNext(files, lane, k)
      ensures forall k | |old(lane)| <= k < |lane| :: Reaches(files, path, lane[k])
      ensures |lane| < MAXIMUM_SCANNED_FILES ==>
                forall k | |old(lane)| - 1 <= k < |lane| :: Followed(files, lane, lane[k])
      decreases MAXIMUM_SCANNED_FILES - |lane|, 2
    {
      var references := files(path).value;
      for n := 0 to |references|
        invariant HasNoDuplicates(lane) && |lane| <= MAXIMUM_SCANNED_FILES
        invariant old(lane) <= lane
        invariant forall k | |old(lane)| <= k < |lane| :: IsNext(files, lane, k)
        invariant forall k | |old(lane)| <= k < |lane| :: Reaches(files, path, lane[k])
        invariant |lane| < MAXIMUM_SCANNED_FILES ==> forall j | 0 <= j < n :: references[j] in lane
        invariant |lane| < MAXIMUM_SCANNED_FILES ==>
                    forall k | |old(lane)| <= k < |lane| :: Followed(files, lane, lane[k])
      {
        ghost var before := lane;
        FollowBuildLane(references[n]);
        StaysInOrder(files, before, lane, |old(lane)| - 1, n);
        forall k | |before| <= k < |lane| ensures Reaches(files, path, lane[k]) {
          ReachesItself(files, path);
          ReachesFurther(files, path, path, references[n]);
          var trail :| IsTrail(files, trail, references[n], lane[k]);
          ReachesThrough(files, path, references[n], trail, lane[k]);
        }
      }
    }
  }

  /** Following one more reference of the file at `p` leaves everything since then in order. */
  lemma StaysInOrder(files: References, before: seq<Path>, lane: seq<Path>, p: nat, n: nat)
    requires p < |before| && before <= lane && files(before[p]).Some? && n < |files(before[p]).value|
    requires forall k | p < k < |before| :: IsNext(files, before, k)
    requires forall k | |before| < k < |lane| :: IsNext(files, lane, k)
    requires |lane| > |before| ==>
      && lane[|before|] == files(before[p]).value[n] && lane[|before|] !in before
      && (forall m | 0 <= m < n :: files(before[p]).value[m] in before)
      && (forall m | p < m < |before| :: Followed(files, before, before[m]))
    ensures forall k | p < k < |lane| :: IsNext(files, lane, k)
  {
    forall k | p < k < |before| ensures IsNext(files, lane, k) {
      NextIsKept(files, before, lane, k);
    }
    if |lane| > |before| {
      NextFollows(files, before, lane, p, n);
    }
  }

  // ---- the lane from the root

  /** Everything the root reaches is listed. */
  ghost predicate HoldsAll(files: References, root: Path, lane: seq<Path>) {
    forall path :: Reaches(files, root, path) ==> path in lane
  }

  /** A closed list holding the root holds everything the root reaches. */
  lemma {:induction false} ClosedHoldsTrail(files: References, lane: seq<Path>, root: Path, trail: seq<Path>, to: Path)
    requires root in lane && forall path | path in lane :: Followed(files, lane, path)
    requires IsTrail(files, trail, root, to)
    ensures to in lane
    decreases |trail|
  {
    if |trail| > 1 {
      var shorter, last := trail[..|trail| - 1], trail[|trail| - 2];
      forall k | 0 <= k < |shorter| - 1 ensures TakesReference(files, shorter, k) {
        assert TakesReference(files, trail, k);
      }
      ClosedHoldsTrail(files, lane, root, shorter, last);
      assert TakesReference(files, trail, |trail| - 2);
      assert Followed(files, lane, last);
    }
  }

  /**
    From an empty lane: the root and then depth first, no duplicates, nothing the root does not
    reach, and below the cap exactly what the root reaches.
   */
  method RootLane(files: References, root: Path) returns (lane: seq<Path>)
    ensures IsDepthFirst(files, root, lane)
    ensures HasNoDuplicates(lane) && |lane| <= MAXIMUM_SCANNED_FILES
    ensures forall path | path in lane :: Reaches(files, root, path)
    ensures |lane| < MAXIMUM_SCANNED_FILES ==> HoldsAll(files, root, lane)
  {
    var follower := new Follower(files);
    follower.FollowBuildLane(root);
    lane := follower.lane;
    if |lane| < MAXIMUM_SCANNED_FILES {
      forall path | Reaches(files, root, path) ensures path in lane {
        var trail :| IsTrail(files, trail, root, path);
        ClosedHoldsTrail(files, lane, root, trail, path);
      }
    }
  }

  /** The root reaches at least this many files. */
  ghost predicate ReachesAtLeast(files: References, root: Path, n: nat) {
    exists found: set<Path> :: |found| == n && AllReached(files, root, found)
  }

  ghost predicate AllReached(files: References, root: Path, found: set<Path>) {
    forall path | path in found :: Reaches(files, root, path)
  }

  lemma {:induction false} ListedSet(lane: seq<Path>) returns (listed: set<Path>)
    requires HasNoDuplicates(lane)
    ensures |listed| == |lane| && forall path :: path in listed <==> path in lane
  {
    if lane == [] {
      listed := {};
    } else {
      var front := ListedSet(lane[..|lane| - 1]);
      listed := front + {lane[|lane| - 1]};
    }
  }

  lemma ListedAreReached(files: References, root: Path, lane: seq<Path>)
    requires HasNoDuplicates(lane) && forall path | path in lane :: Reaches(files, root, path)
    ensures ReachesAtLeast(files, root, |lane|)
  {
    var listed := ListedSet(lane);
    assert AllReached(files, root, listed);
  }

  lemma {:induction false} NoMoreThanListed(found: set<Path>, lane: seq<Path>)
    requires forall path | path in found :: path in lane
    ensures |found| <= |lane|
  {
    if lane != [] {
      var last, front := lane[|lane| - 1], lane[..|lane| - 1];
      NoMoreThanListed(found - {last}, front);
    } else {
      assert found == {};
    }
  }

  /**
    The lane holds as many files as the root reaches, up to the cap, and all of them exactly when
    the root does not reach more than it may hold; the root may reach infinitely many.
   */
  lemma LaneIsCutAtTheCap(files: References, root: Path, lane: seq<Path>)
    requires HasNoDuplicates(lane) && |lane| <= MAXIMUM_SCANNED_FILES
    requires forall path | path in lane :: Reaches(files, root, path)
    requires |lane| < MAXIMUM_SCANNED_FILES ==> HoldsAll(files, root, lane)
    ensures forall n: nat | n <= MAXIMUM_SCANNED_FILES :: ReachesAtLeast(files, root, n) <==> n <= |lane|
    ensures HoldsAll(files, root, lane) <==> !ReachesAtLeast(files, root, MAXIMUM_SCANNED_FILES + 1)
  {
    forall n: nat | n <= |lane| ensures ReachesAtLeast(files, root, n) {
      ListedAreReached(files, root, lane[..n]);
    }
    forall n: nat | ReachesAtLeast(files, root, n) && HoldsAll(files, root, lane) ensures n <= |lane| {
      var found: set<Path> :| |found| == n && AllReached(files, root, found);
      NoMoreThanListed(found, lane);
    }
    if !HoldsAll(files, root, lane) {
      var path :| Reaches(files, root, path) && path !in lane;
      ListedAreReached(files, root, lane + [path]);
    }
  }

  /** There is one such lane: order, cap and reach leave no choice. */
  lemma LaneIsDetermined(files: References, root: Path, left: seq<Path>, right: seq<Path>)
    requires forall lane | lane == left || lane == right ::
      && IsDepthFirst(files, root, lane) && HasNoDuplicates(lane) && |lane| <= MAXIMUM_SCANNED_FILES
      && (forall path | path in lane :: Reaches(files, root, path))
      && (|lane| < MAXIMUM_SCANNED_FILES ==> HoldsAll(files, root, lane))
    ensures left == right
  {
    if |left| <= |right| {
      NoLaneIsLonger(files, root, left, right);
    } else {
      NoLaneIsLonger(files, root, right, left);
    }
  }

  lemma NoLaneIsLonger(files: References, root: Path, left: seq<Path>, right: seq<Path>)
    requires IsDepthFirst(files, root, left) && IsDepthFirst(files, root, right) && HasNoDuplicates(right)
    requires |left| <= |right| <= MAXIMUM_SCANNED_FILES && forall path | path in right :: Reaches(files, root, path)
    requires |left| < MAXIMUM_SCANNED_FILES ==> HoldsAll(files, root, left)
    ensures left == right
  {
    DepthFirstIsUnique(files, root, left, right, |left|);
    assert left[..|left|] == left;
    NotListedBefore(right, |left|);
  }

  lemma NotListedBefore(lane: seq<Path>, n: nat)
    requires HasNoDuplicates(lane) && n <= |lane|
    ensures n < |lane| ==> lane[n] in lane && lane[n] !in lane[..n]
  {
  }
}
