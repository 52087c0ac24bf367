/** First-in first-out replacement (simulator/replacement_policies/fifo.py). The
    policy keeps a queue of frame indices, oldest load first, built lazily as
    [0 .. n) the first time it sees every frame occupied; each choice takes the front
    of the queue and puts it back at the end, since that frame is about to receive
    the newest page. */
module Fifo {
  import opened Wrappers

  /** [0, 1, ..., n - 1] */
  function Range(n: nat): (r: seq<nat>)
    ensures |r| == n && forall i :: 0 <= i < n ==> r[i] == i
  {
    seq(n, i requires 0 <= i < n => i)
  }

  /** `all(f is not None for f in frames)` */
  predicate AllOccupied(frames: seq<Option<int>>)
  {
    forall i :: 0 <= i < |frames| ==> frames[i].Some?
  }

  /** The queue after `_ensure_initialized(frames)`. */
  function Initialized(order: seq<nat>, frames: seq<Option<int>>): seq<nat>
  {
    if |order| == 0 && AllOccupied(frames) then Range(|frames|) else order
  }

  /** `select_victim`: the chosen frame and the queue afterwards. */
  function NextVictim(order: seq<nat>, frames: seq<Option<int>>): (nat, seq<nat>)
  {
    var q := Initialized(order, frames);
    if |q| == 0 then (0, q) else (q[0], q[1..] + [q[0]])
  }

  /** The queue holds each frame index of [0 .. n) exactly once. */
  ghost predicate IsQueueOf(order: seq<nat>, n: nat)
  {
    multiset(order) == multiset(Range(n))
  }

  /** A queue the engine can meet: not yet built, or a permutation of the frame indices. */
  ghost predicate QueueReady(order: seq<nat>, n: nat)
  {
    order == [] || IsQueueOf(order, n)
  }

  /** The queue in which frame `j` is the oldest: j, j + 1, ..., n - 1, 0, ..., j - 1. */
  function Rotation(n: nat, j: nat): (r: seq<nat>)
    requires j < n
    ensures |r| == n
  {
    seq(n, i requires 0 <= i < n => (i + j) % n)
  }

  /** With the queue not yet built and a frame still free, frame 0 is chosen and the queue stays empty. */
  lemma EmptyQueueFallback(frames: seq<Option<int>>)
    requires !AllOccupied(frames)
    ensures NextVictim([], frames) == (0, [])
  {
  }

  /** A built queue is rotated: its front is chosen and moved to the back, so its
      length and its contents (as a multiset) do not change. */
  lemma NextVictimRotates(order: seq<nat>, frames: seq<Option<int>>)
    requires order != []
    ensures NextVictim(order, frames).0 == order[0]
    ensures NextVictim(order, frames).1 == order[1..] + [order[0]]
    ensures multiset(NextVictim(order, frames).1) == multiset(order)
  {
    assert order == [order[0]] + order[1..];
  }

  lemma InQueueOf(order: seq<nat>, n: nat, x: nat)
    requires IsQueueOf(order, n) && x in order
    ensures x < n
  {
    assert x in multiset(Range(n));
  }

  /** With every one of n > 0 frames occupied and a ready queue, the choice is a frame
      index in range and the queue stays a permutation of [0 .. n). */
  lemma NextVictimInRange(order: seq<nat>, frames: seq<Option<int>>)
    requires |frames| > 0 && AllOccupied(frames) && QueueReady(order, |frames|)
    ensures NextVictim(order, frames).0 < |frames|
    ensures IsQueueOf(NextVictim(order, frames).1, |frames|)
  {
    var q := Initialized(order, frames);
    assert IsQueueOf(q, |frames|);
    assert |q| > 0 by {
      assert |multiset(q)| == |multiset(Range(|frames|))|;
    }
    InQueueOf(q, |frames|, q[0]);
    NextVictimRotates(q, frames);
  }

  lemma ModStep(n: nat, x: nat)
    requires 0 < n
    ensures (x + 1) % n == (x % n + 1) % n
  {
    var q, r := x / n, x % n;
    assert x == q * n + r;
    if r + 1 < n {
      DivModOf(x + 1, n, q, r + 1);
      DivModOf(r + 1, n, 0, r + 1);
    } else {
      DivModOf(x + 1, n, q + 1, 0);
      DivModOf(r + 1, n, 1, 0);
    }
  }

  lemma DivModOf(a: int, b: int, q: int, r: int)
    requires b > 0 && 0 <= r < b && a == q * b + r
    ensures a % b == r
  {
    var d := q - a / b;
    assert d * b == (a % b) - r by {
      assert q * b == (a / b) * b + d * b;
    }
  }

  /** Rotating the queue whose oldest frame is j gives the queue whose oldest frame is j + 1 (mod n). */
  lemma RotationStep(n: nat, j: nat, frames: seq<Option<int>>)
    requires j < n
    ensures NextVictim(Rotation(n, j), frames) == (j, Rotation(n, (j + 1) % n))
  {
    var q := Rotation(n, j);
    var r := q[1..] + [q[0]];
    var j' := (j + 1) % n;
    forall i | 0 <= i < n
      ensures r[i] == (i + j') % n
    {
      if i < n - 1 {
        assert r[i] == q[i + 1] == (i + j + 1) % n;
        ModStep(n, i + j);
        ModStep(n, j);
        assert (i + j') % n == ((j + 1) % n + i) % n;
        ModShift(n, j + 1, i);
      } else {
        assert r[i] == q[0] == j % n;
        ModShift(n, j + 1, n - 1);
        DivModOf(j + n, n, 1, j);
        DivModOf(j, n, 0, j);
      }
    }
    assert r == Rotation(n, j');
    assert q[0] == j by {
      DivModOf(j, n, 0, j);
    }
    assert Initialized(q, frames) == q;
  }

  /** Adding i to a residue and reducing again is the same as adding i first. */
  lemma {:induction false} ModShift(n: nat, a: nat, i: nat)
    requires 0 < n
    ensures (a % n + i) % n == (a + i) % n
    decreases i
  {
    if i == 0 {
      DivModOf(a % n, n, 0, a % n);
    } else {
      ModShift(n, a, i - 1);
      ModStep(n, a % n + i - 1);
      ModStep(n, a + i - 1);
    }
  }

  /** The frames chosen by k successive calls on the same frame contents. */
  ghost function Victims(order: seq<nat>, frames: seq<Option<int>>, k: nat): seq<nat>
    decreases k
  {
    if k == 0 then []
    else
      var (v, next) := NextVictim(order, frames);
      [v] + Victims(next, frames, k - 1)
  }

  lemma {:induction false} VictimsFromRotation(n: nat, j: nat, frames: seq<Option<int>>, k: nat)
    requires j < n
    ensures |Victims(Rotation(n, j), frames, k)| == k
    ensures forall t :: 0 <= t < k ==> Victims(Rotation(n, j), frames, k)[t] == (j + t) % n
    decreases k
  {
    if k > 0 {
      RotationStep(n, j, frames);
      var j' := (j + 1) % n;
      VictimsFromRotation(n, j', frames, k - 1);
      var vs := Victims(Rotation(n, j), frames, k);
      assert vs == [j] + Victims(Rotation(n, j'), frames, k - 1);
      forall t | 0 <= t < k
        ensures vs[t] == (j + t) % n
      {
        if t == 0 {
          DivModOf(j, n, 0, j);
        } else {
          assert vs[t] == (j' + (t - 1)) % n;
          ModShift(n, j + 1, t - 1);
        }
      }
    }
  }

  /** Round robin: once every one of n > 0 frames is occupied, successive choices of
      a fresh policy are 0, 1, ..., n - 1, 0, 1, ... */
  lemma RoundRobin(frames: seq<Option<int>>, k: nat)
    requires |frames| > 0 && AllOccupied(frames)
    ensures |Victims([], frames, k)| == k
    ensures forall t :: 0 <= t < k ==> Victims([], frames, k)[t] == t % |frames|
  {
    var n := |frames|;
    forall i | 0 <= i < n
      ensures Rotation(n, 0)[i] == Range(n)[i]
    {
      DivModOf(i, n, 0, i);
    }
    assert Rotation(n, 0) == Range(n);
    if k > 0 {
      assert Victims([], frames, k) == Victims(Rotation(n, 0), frames, k);
    }
    VictimsFromRotation(n, 0, frames, k);
  }

  class FifoAlgorithm {
    /** Frame indices, oldest load first. */
    var order: seq<nat>

    constructor ()
      ensures order == []
    {
      order := [];
    }

    /** Builds the queue [0 .. n) if it is empty and every frame is occupied. */
    method EnsureInitialized(frames: seq<Option<int>>)
      modifies this
      ensures order == Initialized(old(order), frames)
    {
      if |order| == 0 && AllOccupied(frames) {
        order := Range(|frames|);
      }
    }

    /** The reference string and the position are not consulted. */
    method SelectVictim(frames: seq<Option<int>>, referenceString: seq<int>, currentIndex: int)
      returns (victim: nat)
      modifies this
      ensures (victim, order) == NextVictim(old(order), frames)
    {
      EnsureInitialized(frames);
      if |order| == 0 {
        return 0;
      }
      victim := order[0];
      order := order[1..] + [victim];
    }
  }
}
