/** Belady's optimal replacement (simulator/replacement_policies/optimal.py).
    Stateless: for each frame, scan the reference string forward from just after the
    faulting position to the page's next use; a free frame or a page never used again
    is chosen at once, otherwise the frame whose next use lies farthest ahead, the
    lowest index on ties. */
module Optimal {
  import opened Wrappers
  import opened Extrema

  /** Position of the first use of `page` in referenceString[from ..], or -1. */
  function NextUse(referenceString: seq<int>, from: nat, page: int): (r: int)
    ensures r == -1 || (from <= r < |referenceString| && referenceString[r] == page)
    decreases |referenceString| - from
  {
    if from >= |referenceString| then -1
    else if referenceString[from] == page then from
    else NextUse(referenceString, from + 1, page)
  }

  /** No use of the page lies between `from` and its next use (or the end). */
  lemma {:induction false} NextUseIsFirst(referenceString: seq<int>, from: nat, page: int)
    ensures var r := NextUse(referenceString, from, page);
      forall j :: from <= j < |referenceString| && (r == -1 || j < r) ==> referenceString[j] != page
    decreases |referenceString| - from
  {
    if from < |referenceString| && referenceString[from] != page {
      NextUseIsFirst(referenceString, from + 1, page);
    }
  }

  /** Does `page` occur in the reference string after position cur? */
  ghost predicate UsedAfter(referenceString: seq<int>, cur: nat, page: int)
  {
    exists j :: cur < j < |referenceString| && referenceString[j] == page
  }

  /** A frame the source returns at once: free, or holding a page never used again. */
  ghost predicate Unused(frames: seq<Option<int>>, referenceString: seq<int>, cur: nat, i: nat)
    requires i < |frames|
  {
    frames[i].None? || !UsedAfter(referenceString, cur, frames[i].value)
  }

  /** The position of the next use of frame i's page after cur, -1 for a free frame or a page never used again. */
  function Upcoming(frames: seq<Option<int>>, referenceString: seq<int>, cur: nat, i: nat): int
    requires i < |frames|
  {
    if frames[i].None? then -1 else NextUse(referenceString, cur + 1, frames[i].value)
  }

  /** Stands for an unbounded distance: larger than any `next use - cur`. */
  function Unbounded(referenceString: seq<int>): int
  {
    |referenceString| + 1
  }

  /** The distance the source compares for frame i: `next_use_index - cur`, or
      unbounded for a free frame or a page never used again. */
  function Distance(frames: seq<Option<int>>, referenceString: seq<int>, cur: nat, i: nat): int
    requires i < |frames|
  {
    if frames[i].None? then Unbounded(referenceString)
    else
      var next := NextUse(referenceString, cur + 1, frames[i].value);
      if next == -1 then Unbounded(referenceString) else next - cur
  }

  function Distances(frames: seq<Option<int>>, referenceString: seq<int>, cur: nat): (d: seq<int>)
    ensures |d| == |frames|
  {
    seq(|frames|, i requires 0 <= i < |frames| => Distance(frames, referenceString, cur, i))
  }

  /** The frame Optimal evicts: the first frame of largest distance (0 when there are no frames). */
  function OptimalVictim(frames: seq<Option<int>>, referenceString: seq<int>, cur: nat): nat
  {
    FirstArgMax(Distances(frames, referenceString, cur))
  }

  lemma DistanceRange(frames: seq<Option<int>>, referenceString: seq<int>, cur: nat, i: nat)
    requires i < |frames|
    ensures 1 <= Distance(frames, referenceString, cur, i) <= Unbounded(referenceString)
    ensures Distance(frames, referenceString, cur, i) == Unbounded(referenceString)
            <==> Unused(frames, referenceString, cur, i)
    ensures !Unused(frames, referenceString, cur, i) ==>
            Distance(frames, referenceString, cur, i) == Upcoming(frames, referenceString, cur, i) - cur
  {
    if frames[i].Some? {
      var p := frames[i].value;
      var next := NextUse(referenceString, cur + 1, p);
      NextUseIsFirst(referenceString, cur + 1, p);
      if next != -1 {
        assert referenceString[next] == p;
      }
    }
  }

  lemma DistancesBounded(frames: seq<Option<int>>, referenceString: seq<int>, cur: nat)
    ensures forall j :: 0 <= j < |frames| ==>
      1 <= Distances(frames, referenceString, cur)[j] <= Unbounded(referenceString)
  {
    forall j | 0 <= j < |frames| {
      DistanceRange(frames, referenceString, cur, j);
    }
  }

  /** What the source returns, stated without distances: the result is a frame index
      (0 when there are no frames); the lowest frame that is free or whose page is not
      used after the faulting position when there is one (the faulting reference itself
      does not count as a use); otherwise the frame whose next use is farthest ahead,
      the lowest index among equals. */
  lemma OptimalVictimChoice(frames: seq<Option<int>>, referenceString: seq<int>, cur: nat)
    ensures var v := OptimalVictim(frames, referenceString, cur);
      && (|frames| == 0 ==> v == 0)
      && (|frames| > 0 ==> v < |frames|)
      && ((exists i :: 0 <= i < |frames| && Unused(frames, referenceString, cur, i)) ==>
            Unused(frames, referenceString, cur, v) &&
            forall j :: 0 <= j < v ==> !Unused(frames, referenceString, cur, j))
      && ((forall i :: 0 <= i < |frames| ==> !Unused(frames, referenceString, cur, i)) ==>
            && (forall j :: 0 <= j < |frames| ==>
                  Upcoming(frames, referenceString, cur, j) <= Upcoming(frames, referenceString, cur, v))
            && (forall j :: 0 <= j < v ==>
                  Upcoming(frames, referenceString, cur, j) < Upcoming(frames, referenceString, cur, v)))
  {
    var d := Distances(frames, referenceString, cur);
    if |frames| > 0 {
      FirstArgMaxIsFirstMax(d);
      forall i | 0 <= i < |frames| {
        DistanceRange(frames, referenceString, cur, i);
      }
      forall i | 0 <= i < |frames|
        ensures d[i] == Distance(frames, referenceString, cur, i)
      {
      }
    }
  }

  /** The inner loop of `select_victim`: scan forward from currentIndex + 1 and stop at the first match. */
  method FindNextUse(referenceString: seq<int>, currentIndex: nat, page: int) returns (nextUseIndex: int)
    ensures nextUseIndex == NextUse(referenceString, currentIndex + 1, page)
  {
    nextUseIndex := -1;
    var i := currentIndex + 1;
    while i < |referenceString|
      invariant currentIndex + 1 <= i
      invariant forall j :: currentIndex + 1 <= j < i && j < |referenceString| ==> referenceString[j] != page
    {
      if referenceString[i] == page {
        NextUseIsFirst(referenceString, currentIndex + 1, page);
        nextUseIndex := i;
        return;
      }
      i := i + 1;
    }
  }

  /** A free frame, or a page never used again, ends the scan: its distance is the
      bound no distance exceeds. */
  lemma ScanStops(frames: seq<Option<int>>, referenceString: seq<int>, cur: nat, k: nat, candidate: nat, best: int)
    requires k < |frames|
    requires Scanned(Distances(frames, referenceString, cur), Unbounded(referenceString), k, candidate, best)
    requires frames[k].None? || NextUse(referenceString, cur + 1, frames[k].value) == -1
    ensures OptimalVictim(frames, referenceString, cur) == k
  {
    var d := Distances(frames, referenceString, cur);
    DistancesBounded(frames, referenceString, cur);
    ScanReachesBound(d, Unbounded(referenceString), k, candidate, best);
  }

  /** Any other frame is a step of the scan below the bound, with distance
      `next use - cur`. */
  lemma ScanContinues(frames: seq<Option<int>>, referenceString: seq<int>, cur: nat, k: nat, candidate: nat, best: int)
    requires k < |frames|
    requires Scanned(Distances(frames, referenceString, cur), Unbounded(referenceString), k, candidate, best)
    requires frames[k].Some? && NextUse(referenceString, cur + 1, frames[k].value) != -1
    ensures var d := Distances(frames, referenceString, cur);
      var distance := NextUse(referenceString, cur + 1, frames[k].value) - cur;
      if distance > best then Scanned(d, Unbounded(referenceString), k + 1, k, distance)
      else Scanned(d, Unbounded(referenceString), k + 1, candidate, best)
  {
    var d := Distances(frames, referenceString, cur);
    assert d[k] == NextUse(referenceString, cur + 1, frames[k].value) - cur;
    ScanAdvance(d, Unbounded(referenceString), k, candidate, best);
  }

  /** A scan past the last frame has found OptimalVictim. */
  lemma ScanComplete(frames: seq<Option<int>>, referenceString: seq<int>, cur: nat, candidate: nat, best: int)
    requires Scanned(Distances(frames, referenceString, cur), Unbounded(referenceString), |frames|, candidate, best)
    ensures candidate == OptimalVictim(frames, referenceString, cur)
  {
    ScanFinished(Distances(frames, referenceString, cur), Unbounded(referenceString), candidate, best);
  }

  /** `select_victim`: the nested loops of the source, proved to choose OptimalVictim. */
  method SelectVictim(frames: seq<Option<int>>, referenceString: seq<int>, currentIndex: nat)
    returns (victim: nat)
    ensures victim == OptimalVictim(frames, referenceString, currentIndex)
  {
    ghost var d := Distances(frames, referenceString, currentIndex);
    victim := 0;
    var farthestNextUse := -1;
    for frameIndex := 0 to |frames|
      invariant Scanned(d, Unbounded(referenceString), frameIndex, victim, farthestNextUse)
    {
      var page := frames[frameIndex];
      if page.None? {
        ScanStops(frames, referenceString, currentIndex, frameIndex, victim, farthestNextUse);
        return frameIndex;
      }
      var nextUseIndex := FindNextUse(referenceString, currentIndex, page.value);
      if nextUseIndex == -1 {
        ScanStops(frames, referenceString, currentIndex, frameIndex, victim, farthestNextUse);
        return frameIndex;
      }
      ScanContinues(frames, referenceString, currentIndex, frameIndex, victim, farthestNextUse);
      var distance := nextUseIndex - currentIndex;
      if distance > farthestNextUse {
        farthestNextUse := distance;
        victim := frameIndex;
      }
    }
    ScanComplete(frames, referenceString, currentIndex, victim, farthestNextUse);
  }
}
