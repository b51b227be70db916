/**
 * The match filtering of the `match_images_by_superpoint` example: matches
 * are sorted by distance, pruned from the back while the largest distance
 * exceeds four times the smallest, and the surviving pairs' points are
 * gathered for the homography estimate. Brute-force matching and
 * `cv::findHomography` are library calls: the matches are an input and the
 * homography's inlier mask comes from a parameter.
 */
module MatchImages {
  import opened Features

  /** `kDistanceCoef`. */
  const DISTANCE_COEF: real := 4.0

  /** Distances never decrease along `ms`. */
  predicate SortedByDistance(ms: seq<DMatch>)
  {
    forall k, l :: 0 <= k < l < |ms| ==> ms[k].distance <= ms[l].distance
  }

  /** `m` placed into the sorted `ms`, before the first match of larger distance. */
  function Insert(m: DMatch, ms: seq<DMatch>): (r: seq<DMatch>)
    requires SortedByDistance(ms)
    ensures SortedByDistance(r)
    ensures |r| == |ms| + 1
    ensures r[0] == m || (ms != [] && r[0] == ms[0])
  {
    if ms == [] then [m]
    else if m.distance <= ms[0].distance then [m] + ms
    else
      var rest := ms[1..];
      SortedTail(ms);
      var tail := Insert(m, rest);
      ConsSorted(ms[0], tail);
      assert ms == [ms[0]] + rest;
      [ms[0]] + tail
  }

  /** Insertion adds `m` and loses nothing. */
  lemma {:induction false} InsertPermutes(m: DMatch, ms: seq<DMatch>)
    requires SortedByDistance(ms)
    ensures multiset(Insert(m, ms)) == multiset(ms) + multiset{m}
  {
    if ms != [] && m.distance > ms[0].distance {
      var rest := ms[1..];
      SortedTail(ms);
      InsertPermutes(m, rest);
      assert ms == [ms[0]] + rest;
      assert Insert(m, ms) == [ms[0]] + Insert(m, rest);
    }
  }

  /** Dropping the head of a sorted list leaves it sorted, and the head is no farther than the next. */
  lemma SortedTail(ms: seq<DMatch>)
    requires SortedByDistance(ms) && ms != []
    ensures SortedByDistance(ms[1..])
    ensures |ms| > 1 ==> ms[0].distance <= ms[1].distance
  {
    forall k, l | 0 <= k < l < |ms| - 1
      ensures ms[1..][k].distance <= ms[1..][l].distance
    {
      assert ms[1..][k] == ms[k + 1] && ms[1..][l] == ms[l + 1];
    }
  }

  /** A match no farther than the head of a sorted list extends it, still sorted. */
  lemma ConsSorted(m: DMatch, ms: seq<DMatch>)
    requires SortedByDistance(ms) && (ms != [] ==> m.distance <= ms[0].distance)
    ensures SortedByDistance([m] + ms)
  {
    forall k, l | 0 <= k < l < |ms| + 1
      ensures ([m] + ms)[k].distance <= ([m] + ms)[l].distance
    {
      if k > 0 {
        assert ([m] + ms)[k] == ms[k - 1];
      } else if l > 1 {
        assert ms[0].distance <= ms[l - 1].distance;
      }
    }
  }

  /**
   * `std::sort` with `DMatch::operator<`: a permutation of the matches in
   * non-decreasing distance order (the order among equal distances is the
   * library's and is not modelled).
   */
  function SortByDistance(ms: seq<DMatch>): (r: seq<DMatch>)
    ensures SortedByDistance(r)
    ensures |r| == |ms|
    ensures multiset(r) == multiset(ms)
  {
    if ms == [] then []
    else
      assert ms == [ms[0]] + ms[1..];
      InsertPermutes(ms[0], SortByDistance(ms[1..]));
      Insert(ms[0], SortByDistance(ms[1..]))
  }

  /**
   * The `pop_back` loop: drops the last match while the first one's
   * distance times four is below the last one's. The survivors are a prefix,
   * the loop stops only on an empty list or a last distance within four
   * times the first, and every dropped match was beyond that bound.
   */
  method PruneMatches(matches: seq<DMatch>) returns (kept: seq<DMatch>)
    ensures |kept| <= |matches| && kept == matches[..|kept|]
    ensures kept == [] || kept[|kept| - 1].distance <= kept[0].distance * DISTANCE_COEF
    ensures forall k :: |kept| <= k < |matches| ==> matches[0].distance * DISTANCE_COEF < matches[k].distance
  {
    kept := matches;
    while |kept| > 0 && kept[0].distance * DISTANCE_COEF < kept[|kept| - 1].distance
      invariant |kept| <= |matches| && kept == matches[..|kept|]
      invariant forall k :: |kept| <= k < |matches| ==> matches[0].distance * DISTANCE_COEF < matches[k].distance
    {
      kept := kept[..|kept| - 1];
    }
  }

  /**
   * For sorted matches of non-negative distance, the prefix the loop leaves
   * is exactly the matches within four times the smallest distance; the
   * smallest match is never dropped.
   */
  lemma PruneKeepsWithinBound(matches: seq<DMatch>, kept: seq<DMatch>)
    requires SortedByDistance(matches) && |matches| > 0 && matches[0].distance >= 0.0
    requires |kept| <= |matches| && kept == matches[..|kept|]
    requires kept == [] || kept[|kept| - 1].distance <= kept[0].distance * DISTANCE_COEF
    requires forall k :: |kept| <= k < |matches| ==> matches[0].distance * DISTANCE_COEF < matches[k].distance
    ensures |kept| >= 1
    ensures forall k :: 0 <= k < |matches| ==> (k < |kept| <==> matches[k].distance <= matches[0].distance * DISTANCE_COEF)
  {
    forall k | 0 <= k < |kept|
      ensures matches[k].distance <= matches[0].distance * DISTANCE_COEF
    {
      assert matches[k] == kept[k];
      assert matches[k].distance <= matches[|kept| - 1].distance;
    }
  }

  /**
   * The good-match selection of `main`: sort, prune, and a mask with one
   * entry, equal to 1, per surviving match.
   */
  method SelectGoodMatches(matches: seq<DMatch>) returns (good: seq<DMatch>, matchMask: seq<int>)
    ensures SortedByDistance(good)
    ensures |good| <= |matches| && good == SortByDistance(matches)[..|good|]
    ensures multiset(good) <= multiset(matches)
    ensures |matches| > 0 && (forall k :: 0 <= k < |matches| ==> matches[k].distance >= 0.0) ==>
              |good| >= 1 &&
              forall m :: m in matches ==> (m in good <==> m.distance <= good[0].distance * DISTANCE_COEF)
    ensures |matchMask| == |good| && forall k :: 0 <= k < |matchMask| ==> matchMask[k] == 1
  {
    var sorted := SortByDistance(matches);
    good := PruneMatches(sorted);
    matchMask := seq(|good|, _ => 1);
    PrunedSortedFacts(matches, sorted, good);
  }

  /** What the prune loop's postcondition gives for a sorted permutation of `matches`. */
  lemma PrunedSortedFacts(matches: seq<DMatch>, sorted: seq<DMatch>, good: seq<DMatch>)
    requires SortedByDistance(sorted) && multiset(sorted) == multiset(matches)
    requires |good| <= |sorted| && good == sorted[..|good|]
    requires good == [] || good[|good| - 1].distance <= good[0].distance * DISTANCE_COEF
    requires forall k :: |good| <= k < |sorted| ==> sorted[0].distance * DISTANCE_COEF < sorted[k].distance
    ensures SortedByDistance(good)
    ensures multiset(good) <= multiset(matches)
    ensures |matches| > 0 && (forall k :: 0 <= k < |matches| ==> matches[k].distance >= 0.0) ==>
              |good| >= 1 &&
              forall m :: m in matches ==> (m in good <==> m.distance <= good[0].distance * DISTANCE_COEF)
  {
    PrefixFacts(sorted, good);
    if |matches| > 0 && (forall k :: 0 <= k < |matches| ==> matches[k].distance >= 0.0) {
      assert sorted[0] in multiset(matches);
      PruneKeepsWithinBound(sorted, good);
      SurvivorsByDistance(matches, sorted, good);
    }
  }

  /** A prefix of a sorted sequence is sorted and a sub-multiset of it. */
  lemma PrefixFacts(sorted: seq<DMatch>, good: seq<DMatch>)
    requires SortedByDistance(sorted)
    requires |good| <= |sorted| && good == sorted[..|good|]
    ensures SortedByDistance(good)
    ensures multiset(good) <= multiset(sorted)
  {
    forall k, l | 0 <= k < l < |good|
      ensures good[k].distance <= good[l].distance
    {
      assert good[k] == sorted[k] && good[l] == sorted[l];
    }
    assert sorted == good + sorted[|good|..];
    assert multiset(sorted) == multiset(good) + multiset(sorted[|good|..]);
  }

  /** Membership in the kept prefix of the sorted matches, stated of the original matches. */
  lemma SurvivorsByDistance(matches: seq<DMatch>, sorted: seq<DMatch>, good: seq<DMatch>)
    requires multiset(sorted) == multiset(matches)
    requires 1 <= |good| <= |sorted| && good == sorted[..|good|]
    requires forall k :: 0 <= k < |sorted| ==> (k < |good| <==> sorted[k].distance <= sorted[0].distance * DISTANCE_COEF)
    ensures forall m :: m in matches ==> (m in good <==> m.distance <= good[0].distance * DISTANCE_COEF)
  {
    forall m | m in matches
      ensures m in good <==> m.distance <= good[0].distance * DISTANCE_COEF
    {
      assert m in multiset(sorted);
      var k :| 0 <= k < |sorted| && sorted[k] == m;
      if m in good {
        var l :| 0 <= l < |good| && good[l] == m;
        assert sorted[l] == m;
      }
    }
  }

  /** The query-side points of `matches`. */
  function QueryPoints(kpts1: seq<KeyPoint>, matches: seq<DMatch>): seq<Point>
    requires forall i :: 0 <= i < |matches| ==> 0 <= matches[i].queryIdx < |kpts1|
  {
    seq(|matches|, i requires 0 <= i < |matches| => kpts1[matches[i].queryIdx].pt)
  }

  /** The train-side points of `matches`. */
  function TrainPoints(kpts2: seq<KeyPoint>, matches: seq<DMatch>): seq<Point>
    requires forall i :: 0 <= i < |matches| ==> 0 <= matches[i].trainIdx < |kpts2|
  {
    seq(|matches|, i requires 0 <= i < |matches| => kpts2[matches[i].trainIdx].pt)
  }

  /** The loop that gathers the two point lists, aligned with `matches`. */
  method GatherPoints(kpts1: seq<KeyPoint>, kpts2: seq<KeyPoint>, matches: seq<DMatch>)
    returns (pts1: seq<Point>, pts2: seq<Point>)
    requires forall i :: 0 <= i < |matches| ==> 0 <= matches[i].queryIdx < |kpts1| && 0 <= matches[i].trainIdx < |kpts2|
    ensures |pts1| == |matches| && |pts2| == |matches|
    ensures forall i :: 0 <= i < |matches| ==>
              pts1[i] == kpts1[matches[i].queryIdx].pt && pts2[i] == kpts2[matches[i].trainIdx].pt
  {
    pts1, pts2 := [], [];
    var i := 0;
    while i < |matches|
      invariant 0 <= i <= |matches|
      invariant |pts1| == i && |pts2| == i
      invariant forall k :: 0 <= k < i ==> pts1[k] == kpts1[matches[k].queryIdx].pt && pts2[k] == kpts2[matches[k].trainIdx].pt
    {
      pts1 := pts1 + [kpts1[matches[i].queryIdx].pt];
      pts2 := pts2 + [kpts2[matches[i].trainIdx].pt];
      i := i + 1;
    }
  }

  /**
   * `findKeyPointsHomography`: a mask of fewer than 3 entries is left as it
   * is; otherwise the homography estimate overwrites it from the two point
   * lists.
   */
  method FindKeyPointsHomography(kpts1: seq<KeyPoint>, kpts2: seq<KeyPoint>, matches: seq<DMatch>,
                                 matchMask: seq<int>, findHomography: (seq<Point>, seq<Point>) -> seq<int>)
    returns (matchMask': seq<int>)
    requires |matchMask| >= 3 ==>
      forall i :: 0 <= i < |matches| ==> 0 <= matches[i].queryIdx < |kpts1| && 0 <= matches[i].trainIdx < |kpts2|
    ensures |matchMask| < 3 ==> matchMask' == matchMask
    ensures |matchMask| >= 3 ==> matchMask' == findHomography(QueryPoints(kpts1, matches), TrainPoints(kpts2, matches))
  {
    if |matchMask| < 3 {
      return matchMask;
    }
    var pts1, pts2 := GatherPoints(kpts1, kpts2, matches);
    assert pts1 == QueryPoints(kpts1, matches) && pts2 == TrainPoints(kpts2, matches);
    matchMask' := findHomography(pts1, pts2);
  }
}
