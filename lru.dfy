/** Least-recently-used replacement (simulator/replacement_policies/lru.py). Stateless:
    for each frame, scan the reference string backward from the faulting position to
    the page's most recent use; a free frame or a page never used before is chosen at
    once, otherwise the frame whose last use lies farthest back, the lowest index on
    ties. */
module Lru {
  import opened Wrappers
  import opened Extrema

  /** Position of the most recent use of `page` in referenceString[0 .. cur), or -1. */
  function LastUse(referenceString: seq<int>, cur: nat, page: int): (r: int)
    requires cur <= |referenceString|
    ensures -1 <= r < cur
    ensures r >= 0 ==> referenceString[r] == page
    decreases cur
  {
    if cur == 0 then -1
    else if referenceString[cur - 1] == page then cur - 1
    else LastUse(referenceString, cur - 1, page)
  }

  /** No use of the page lies between its last use and cur. */
  lemma {:induction false} LastUseIsMostRecent(referenceString: seq<int>, cur: nat, page: int)
    requires cur <= |referenceString|
    ensures forall j :: LastUse(referenceString, cur, page) < j < cur ==> referenceString[j] != page
    decreases cur
  {
    if cur > 0 && referenceString[cur - 1] != page {
      LastUseIsMostRecent(referenceString, cur - 1, page);
    }
  }

  /** Does `page` occur in referenceString[0 .. cur)? */
  ghost predicate UsedBefore(referenceString: seq<int>, cur: nat, page: int)
  {
    exists j :: 0 <= j < cur && j < |referenceString| && referenceString[j] == page
  }

  /** A frame the source returns at once: free, or holding a page with no earlier use. */
  ghost predicate Unused(frames: seq<Option<int>>, referenceString: seq<int>, cur: nat, i: nat)
    requires i < |frames|
  {
    frames[i].None? || !UsedBefore(referenceString, cur, frames[i].value)
  }

  /** The position of the last use of frame i's page, -1 for a free frame or a page with no earlier use. */
  function Recency(frames: seq<Option<int>>, referenceString: seq<int>, cur: nat, i: nat): int
    requires cur <= |referenceString| && i < |frames|
  {
    if frames[i].None? then -1 else LastUse(referenceString, cur, frames[i].value)
  }

  /** Stands for an unbounded distance: larger than any `cur - last use` with cur <= |referenceString|. */
  function Unbounded(referenceString: seq<int>): int
  {
    |referenceString| + 1
  }

  /** The distance the source compares for frame i: `cur - last_use_index`, or
      unbounded for a free frame or a page with no earlier use. */
  function Distance(frames: seq<Option<int>>, referenceString: seq<int>, cur: nat, i: nat): int
    requires cur <= |referenceString| && i < |frames|
  {
    if frames[i].None? then Unbounded(referenceString)
    else
      var last := LastUse(referenceString, cur, frames[i].value);
      if last == -1 then Unbounded(referenceString) else cur - last
  }

  function Distances(frames: seq<Option<int>>, referenceString: seq<int>, cur: nat): (d: seq<int>)
    requires cur <= |referenceString|
    ensures |d| == |frames|
  {
    seq(|frames|, i requires 0 <= i < |frames| => Distance(frames, referenceString, cur, i))
  }

  /** The frame LRU evicts: the first frame of largest distance (0 when there are no frames). */
  function LruVictim(frames: seq<Option<int>>, referenceString: seq<int>, cur: nat): nat
    requires cur <= |referenceString|
  {
    FirstArgMax(Distances(frames, referenceString, cur))
  }

  lemma DistanceRange(frames: seq<Option<int>>, referenceString: seq<int>, cur: nat, i: nat)
    requires cur <= |referenceString| && i < |frames|
    ensures 1 <= Distance(frames, referenceString, cur, i) <= Unbounded(referenceString)
    ensures Distance(frames, referenceString, cur, i) == Unbounded(referenceString)
            <==> Unused(frames, referenceString, cur, i)
    ensures !Unused(frames, referenceString, cur, i) ==>
            Distance(frames, referenceString, cur, i) == cur - Recency(frames, referenceString, cur, i)
  {
    if frames[i].Some? {
      var p := frames[i].value;
      var last := LastUse(referenceString, cur, p);
      LastUseIsMostRecent(referenceString, cur, p);
      if last != -1 {
        assert referenceString[last] == p;
      }
    }
  }

  lemma DistancesBounded(frames: seq<Option<int>>, referenceString: seq<int>, cur: nat)
    requires cur <= |referenceString|
    ensures forall j :: 0 <= j < |frames| ==>
      1 <= Distances(frames, referenceString, cur)[j] <= Unbounded(referenceString)
  {
    forall j | 0 <= j < |frames| {
      DistanceRange(frames, referenceString, cur, j);
    }
  }

  /** What the source returns, stated without distances: the result is a frame index
      (0 when there are no frames); the lowest frame that is free or whose page has no
      earlier use when there is one; otherwise the frame whose page's most recent use is
      earliest, the lowest index among equals. */
  lemma LruVictimChoice(frames: seq<Option<int>>, referenceString: seq<int>, cur: nat)
    requires cur <= |referenceString|
    ensures var v := LruVictim(frames, referenceString, cur);
      && (|frames| == 0 ==> v == 0)
      && (|frames| > 0 ==> v < |frames|)
      && ((exists i :: 0 <= i < |frames| && Unused(frames, referenceString, cur, i)) ==>
            Unused(frames, referenceString, cur, v) &&
            forall j :: 0 <= j < v ==> !Unused(frames, referenceString, cur, j))
      && ((forall i :: 0 <= i < |frames| ==> !Unused(frames, referenceString, cur, i)) ==>
            && (forall j :: 0 <= j < |frames| ==>
                  Recency(frames, referenceString, cur, v) <= Recency(frames, referenceString, cur, j))
            && (forall j :: 0 <= j < v ==>
                  Recency(frames, referenceString, cur, v) < Recency(frames, referenceString, cur, j)))
  {
    var d := Distances(frames, referenceString, cur);
    if |frames| > 0 {
      FirstArgMaxIsFirstMax(d);
      forall i | 0 <= i < |frames| {
        DistanceRange(frames, referenceString, cur, i);
      }
      forall i | 0 <= i < |frames|
        ensures d[i] == Distance(frames, referenceString, cur, i)
      {
      }
    }
  }

  /** The inner loop of `select_victim`: scan backward from currentIndex - 1 and stop at the first match. */
  method FindLastUse(referenceString: seq<int>, currentIndex: nat, page: int) returns (lastUseIndex: int)
    requires currentIndex <= |referenceString|
    ensures lastUseIndex == LastUse(referenceString, currentIndex, page)
  {
    lastUseIndex := -1;
    var i := currentIndex;
    while i > 0
      invariant 0 <= i <= currentIndex
      invariant forall j :: i <= j < currentIndex ==> referenceString[j] != page
    {
      i := i - 1;
      if referenceString[i] == page {
        LastUseIsMostRecent(referenceString, currentIndex, page);
        lastUseIndex := i;
        return;
      }
    }
  }

  /** A free frame, or a page never used before, ends the scan: its distance is the
      bound no distance exceeds. */
  lemma ScanStops(frames: seq<Option<int>>, referenceString: seq<int>, cur: nat, k: nat, candidate: nat, best: int)
    requires cur <= |referenceString| && k < |frames|
    requires Scanned(Distances(frames, referenceString, cur), Unbounded(referenceString), k, candidate, best)
    requires frames[k].None? || LastUse(referenceString, cur, frames[k].value) == -1
    ensures FirstArgMax(Distances(frames, referenceString, cur)) == k
  {
    var d := Distances(frames, referenceString, cur);
    DistancesBounded(frames, referenceString, cur);
    ScanReachesBound(d, Unbounded(referenceString), k, candidate, best);
  }

  /** Any other frame is a step of the scan below the bound, with distance
      `cur - last use`. */
  lemma ScanContinues(frames: seq<Option<int>>, referenceString: seq<int>, cur: nat, k: nat, candidate: nat, best: int)
    requires cur <= |referenceString| && k < |frames|
    requires Scanned(Distances(frames, referenceString, cur), Unbounded(referenceString), k, candidate, best)
    requires frames[k].Some? && LastUse(referenceString, cur, frames[k].value) != -1
    ensures var d := Distances(frames, referenceString, cur);
      var distance := cur - LastUse(referenceString, cur, frames[k].value);
      if distance > best then Scanned(d, Unbounded(referenceString), k + 1, k, distance)
      else Scanned(d, Unbounded(referenceString), k + 1, candidate, best)
  {
    var d := Distances(frames, referenceString, cur);
    assert d[k] == cur - LastUse(referenceString, cur, frames[k].value);
    ScanAdvance(d, Unbounded(referenceString), k, candidate, best);
  }

  /** A scan past the last frame has found LruVictim. */
  lemma ScanComplete(frames: seq<Option<int>>, referenceString: seq<int>, cur: nat, candidate: nat, best: int)
    requires cur <= |referenceString| && Scanned(Distances(frames, referenceString, cur), Unbounded(referenceString), |frames|, candidate, best)
    ensures candidate == LruVictim(frames, referenceString, cur)
  {
    ScanFinished(Distances(frames, referenceString, cur), Unbounded(referenceString), candidate, best);
  }

  /** `select_victim`: the nested loops of the source, proved to choose LruVictim. */
  method SelectVictim(frames: seq<Option<int>>, referenceString: seq<int>, currentIndex: nat)
    returns (victim: nat)
    requires currentIndex <= |referenceString|
    ensures victim == LruVictim(frames, referenceString, currentIndex)
  {
    ghost var d := Distances(frames, referenceString, currentIndex);
    victim := 0;
    var oldestDistance := -1;
    for frameIndex := 0 to |frames|
      invariant Scanned(d, Unbounded(referenceString), frameIndex, victim, oldestDistance)
    {
      var page := frames[frameIndex];
      if page.None? {
        ScanStops(frames, referenceString, currentIndex, frameIndex, victim, oldestDistance);
        return frameIndex;
      }
      var lastUseIndex := FindLastUse(referenceString, currentIndex, page.value);
      if lastUseIndex == -1 {
        ScanStops(frames, referenceString, currentIndex, frameIndex, victim, oldestDistance);
        return frameIndex;
      }
      ScanContinues(frames, referenceString, currentIndex, frameIndex, victim, oldestDistance);
      var distance := currentIndex - lastUseIndex;
      if distance > oldestDistance {
        oldestDistance := distance;
        victim := frameIndex;
      }
    }
    ScanComplete(frames, referenceString, currentIndex, victim, oldestDistance);
  }
}
