/** The "first best" scan that the replacement policies and the TLB share: walk a
    sequence left to right and keep the current candidate unless a strictly better
    value appears, so that ties go to the lowest index. */
module Extrema {

  /** Index of the first maximal element (0 for the empty sequence). */
  function FirstArgMax(s: seq<int>): (k: nat)
    ensures |s| > 0 ==> k < |s|
    ensures |s| == 0 ==> k == 0
    decreases |s|
  {
    if |s| <= 1 then 0
    else
      var k := FirstArgMax(s[..|s| - 1]);
      if s[|s| - 1] > s[k] then |s| - 1 else k
  }

  /** Index of the first minimal element (0 for the empty sequence). */
  function FirstArgMin(s: seq<int>): (k: nat)
    ensures |s| > 0 ==> k < |s|
  {
    FirstArgMax(Negated(s))
  }

  function Negated(s: seq<int>): (r: seq<int>)
    ensures |r| == |s| && forall j :: 0 <= j < |s| ==> r[j] == -s[j]
  {
    seq(|s|, j requires 0 <= j < |s| => -s[j])
  }

  ghost predicate IsFirstMax(s: seq<int>, k: int)
  {
    && 0 <= k < |s|
    && (forall j :: 0 <= j < |s| ==> s[j] <= s[k])
    && (forall j :: 0 <= j < k ==> s[j] < s[k])
  }

  ghost predicate IsFirstMin(s: seq<int>, k: int)
  {
    && 0 <= k < |s|
    && (forall j :: 0 <= j < |s| ==> s[k] <= s[j])
    && (forall j :: 0 <= j < k ==> s[k] < s[j])
  }

  /** FirstArgMax picks a maximum, and no earlier index holds one. */
  lemma {:induction false} FirstArgMaxIsFirstMax(s: seq<int>)
    requires |s| > 0
    ensures IsFirstMax(s, FirstArgMax(s))
  {
    if |s| > 1 {
      var p := s[..|s| - 1];
      FirstArgMaxIsFirstMax(p);
      assert forall j :: 0 <= j < |p| ==> s[j] == p[j];
    }
  }

  /** The first maximum is unique, so any index with that property is FirstArgMax. */
  lemma FirstMaxIsFirstArgMax(s: seq<int>, k: int)
    requires IsFirstMax(s, k)
    ensures k == FirstArgMax(s)
  {
    FirstArgMaxIsFirstMax(s);
  }

  /** FirstArgMin picks a minimum, and no earlier index holds one. */
  lemma FirstArgMinIsFirstMin(s: seq<int>)
    requires |s| > 0
    ensures IsFirstMin(s, FirstArgMin(s))
  {
    FirstArgMaxIsFirstMax(Negated(s));
  }

  /** Extending the scanned prefix by one element: the candidate moves only on a strictly larger value. */
  lemma FirstArgMaxSnoc(s: seq<int>, x: int)
    requires |s| > 0
    ensures FirstArgMax(s + [x]) == if x > s[FirstArgMax(s)] then |s| else FirstArgMax(s)
  {
    assert (s + [x])[..|s|] == s;
  }

  /** What the source's scan knows after the entries before k: none of them reached
      the bound that makes it stop, and the candidate is the first index of largest
      value among them, with that value as the running best (-1 before the first
      entry, below every value scanned). */
  ghost predicate Scanned(s: seq<int>, bound: int, k: nat, candidate: nat, best: int)
    requires k <= |s|
  {
    && (forall j :: 0 <= j < k ==> s[j] < bound)
    && (k == 0 ==> candidate == 0 && best == -1)
    && (k > 0 ==> candidate == FirstArgMax(s[..k]) && best == s[candidate])
  }

  /** A scan that meets the largest possible value at index k has found the first
      maximum: stopping there early changes nothing. */
  lemma ScanReachesBound(s: seq<int>, bound: int, k: nat, candidate: nat, best: int)
    requires k < |s| && Scanned(s, bound, k, candidate, best)
    requires s[k] == bound && forall j :: 0 <= j < |s| ==> s[j] <= bound
    ensures FirstArgMax(s) == k
  {
    FirstMaxIsFirstArgMax(s, k);
  }

  /** One step of the scan below the bound: keeping the candidate unless the next
      value is strictly larger leaves the first maximum of the prefix scanned so far. */
  lemma ScanAdvance(s: seq<int>, bound: int, k: nat, candidate: nat, best: int)
    requires k < |s| && Scanned(s, bound, k, candidate, best)
    requires -1 < s[k] < bound
    ensures s[k] > best ==> Scanned(s, bound, k + 1, k, s[k])
    ensures s[k] <= best ==> Scanned(s, bound, k + 1, candidate, best)
  {
    if k > 0 {
      assert s[..k + 1] == s[..k] + [s[k]];
      FirstArgMaxSnoc(s[..k], s[k]);
    }
  }

  /** A scan that has passed every entry holds the first maximum. */
  lemma ScanFinished(s: seq<int>, bound: int, candidate: nat, best: int)
    requires Scanned(s, bound, |s|, candidate, best)
    ensures candidate == FirstArgMax(s)
  {
    assert s[..|s|] == s;
  }
}
