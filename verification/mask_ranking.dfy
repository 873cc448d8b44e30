/** The ranking `run_sam2_automatic` puts its masks in: indices sorted by area, largest
    first, with Python's stable sort keeping equal areas in their original order. Masks
    are given by their areas (the pixel sums). */
module MaskRanking {

  predicate InRange(areas: seq<nat>, s: seq<nat>) {
    forall i :: 0 <= i < |s| ==> s[i] < |areas|
  }

  /** Mask `a` is ranked ahead of mask `b`: a larger area, or the same area and an
      earlier position. On distinct indices exactly one of the two ways round holds. */
  predicate Before(areas: seq<nat>, a: nat, b: nat)
    requires a < |areas| && b < |areas|
  {
    areas[a] > areas[b] || (areas[a] == areas[b] && a < b)
  }

  predicate Ranked(areas: seq<nat>, s: seq<nat>)
    requires InRange(areas, s)
  {
    forall i, j :: 0 <= i < j < |s| ==> Before(areas, s[i], s[j])
  }

  /** One step of an insertion sort. */
  function Insert(areas: seq<nat>, x: nat, s: seq<nat>): (r: seq<nat>)
    requires x < |areas| && InRange(areas, s) && Ranked(areas, s) && x !in s
    ensures |r| == |s| + 1 && InRange(areas, r) && Ranked(areas, r)
    ensures forall y :: y in r <==> y in s || y == x
    decreases |s|
  {
    if |s| == 0 then [x]
    else if Before(areas, x, s[0]) then
      assert forall j :: 0 < j < |s| ==> Before(areas, s[0], s[j]);
      [x] + s
    else
      var rest := Insert(areas, x, s[1..]);
      assert forall y :: y in rest ==> Before(areas, s[0], y);
      [s[0]] + rest
  }

  /** The first `k` mask indices in ranked order. */
  function Rank(areas: seq<nat>, k: nat): (r: seq<nat>)
    requires k <= |areas|
    ensures |r| == k && InRange(areas, r) && Ranked(areas, r)
    ensures forall y: nat :: y in r <==> y < k
  {
    if k == 0 then [] else Insert(areas, k - 1, Rank(areas, k - 1))
  }

  /** `mask_areas.sort(key=area, reverse=True)`, keeping only the indices. */
  function RankByArea(areas: seq<nat>): (r: seq<nat>)
    ensures |r| == |areas| && InRange(areas, r) && Ranked(areas, r)
    ensures forall y: nat :: y in r <==> y < |areas|
  {
    Rank(areas, |areas|)
  }

  /** The ranking is determined by the ordering it must satisfy: two ranked sequences holding the
      same indices are the same sequence, so any stable descending sort agrees with
      `RankByArea`. */
  lemma {:induction false} RankedUnique(areas: seq<nat>, s: seq<nat>, t: seq<nat>)
    requires InRange(areas, s) && Ranked(areas, s) && InRange(areas, t) && Ranked(areas, t)
    requires forall y :: y in s <==> y in t
    ensures s == t
    decreases |s|
  {
    if |s| > 0 {
      assert s[0] in t;
    }
    if |t| > 0 {
      assert t[0] in s;
    }
    if |s| > 0 {
      var i :| 0 <= i < |t| && t[i] == s[0];
      var j :| 0 <= j < |s| && s[j] == t[0];
      assert i == 0 || j == 0;
      assert s[0] == t[0];
      forall y
        ensures y in s[1..] <==> y in t[1..]
      {
        if y in s[1..] {
          var k :| 1 <= k < |s| && s[k] == y;
          assert Before(areas, s[0], s[k]);
          assert y in s && y in t;
          var m :| 0 <= m < |t| && t[m] == y;
          assert m != 0;
          assert t[1..][m - 1] == y;
        }
        if y in t[1..] {
          var k :| 1 <= k < |t| && t[k] == y;
          assert Before(areas, t[0], t[k]);
          assert y in t && y in s;
          var m :| 0 <= m < |s| && s[m] == y;
          assert m != 0;
          assert s[1..][m - 1] == y;
        }
      }
      RankedUnique(areas, s[1..], t[1..]);
    }
  }

  /** The first ranked mask has the largest area. */
  lemma LargestFirst(areas: seq<nat>, k: nat)
    requires k < |areas|
    ensures areas[RankByArea(areas)[0]] >= areas[k]
  {
    var r := RankByArea(areas);
    assert k in r;
    var i :| 0 <= i < |r| && r[i] == k;
    if i > 0 {
      assert Before(areas, r[0], r[i]);
    }
  }

  /** Equal areas keep their original order. */
  lemma StableOnTies(areas: seq<nat>, i: nat, j: nat)
    requires i < j < |areas| && areas[RankByArea(areas)[i]] == areas[RankByArea(areas)[j]]
    ensures RankByArea(areas)[i] < RankByArea(areas)[j]
  {
    assert Before(areas, RankByArea(areas)[i], RankByArea(areas)[j]);
  }
}
