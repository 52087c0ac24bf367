/** The replacement-policy capability (simulator/base_policy.py) as a closed variant:
    FIFO carries the object that holds its queue, LRU and Optimal hold nothing. The
    engine asks for a victim only when every frame is occupied. */
module Policies {
  import opened Wrappers
  import Fifo
  import Lru
  import Optimal

  datatype Policy = FifoPolicy(fifo: Fifo.FifoAlgorithm) | LruPolicy | OptimalPolicy
  {
    /** The objects a choice may change. */
    ghost function Repr(): set<object>
    {
      if FifoPolicy? then {fifo} else {}
    }
  }

  /** What a policy remembers between calls, as a value. */
  datatype PolicyState = FifoState(order: seq<nat>) | LruState | OptimalState

  ghost function StateOf(p: Policy): PolicyState
    reads p.Repr()
  {
    match p
    case FifoPolicy(f) => FifoState(f.order)
    case LruPolicy => LruState
    case OptimalPolicy => OptimalState
  }

  /** `select_victim` of the chosen variant: the frame and the policy's state afterwards. */
  function Choose(s: PolicyState, frames: seq<Option<int>>, referenceString: seq<int>, cur: nat): (nat, PolicyState)
    requires cur <= |referenceString|
  {
    match s
    case FifoState(order) =>
      var (v, next) := Fifo.NextVictim(order, frames);
      (v, FifoState(next))
    case LruState => (Lru.LruVictim(frames, referenceString, cur), s)
    case OptimalState => (Optimal.OptimalVictim(frames, referenceString, cur), s)
  }

  /** The state the engine keeps a policy in for n frames: a FIFO queue not yet built
      or holding each of the n frame indices once. */
  ghost predicate Ready(s: PolicyState, n: nat)
  {
    s.FifoState? ==> Fifo.QueueReady(s.order, n)
  }

  /** With n > 0 frames all occupied, every variant chooses a frame index in range and
      stays ready; only FIFO changes its state, and the variant never changes. */
  lemma ChooseInRange(s: PolicyState, frames: seq<Option<int>>, referenceString: seq<int>, cur: nat)
    requires cur <= |referenceString|
    requires |frames| > 0 && Fifo.AllOccupied(frames) && Ready(s, |frames|)
    ensures Choose(s, frames, referenceString, cur).0 < |frames|
    ensures Ready(Choose(s, frames, referenceString, cur).1, |frames|)
    ensures !s.FifoState? ==> Choose(s, frames, referenceString, cur).1 == s
    ensures s.FifoState? == Choose(s, frames, referenceString, cur).1.FifoState?
  {
    match s
    case FifoState(order) => Fifo.NextVictimInRange(order, frames);
    case LruState => Lru.LruVictimChoice(frames, referenceString, cur);
    case OptimalState => Optimal.OptimalVictimChoice(frames, referenceString, cur);
  }

  /** Dispatch to the variant's `select_victim`. */
  method SelectVictim(p: Policy, frames: seq<Option<int>>, referenceString: seq<int>, currentIndex: nat)
    returns (victim: nat)
    requires currentIndex <= |referenceString|
    requires Fifo.AllOccupied(frames)
    modifies p.Repr()
    ensures (victim, StateOf(p)) == Choose(old(StateOf(p)), frames, referenceString, currentIndex)
  {
    match p
    case FifoPolicy(f) =>
      victim := f.SelectVictim(frames, referenceString, currentIndex);
    case LruPolicy =>
      victim := Lru.SelectVictim(frames, referenceString, currentIndex);
    case OptimalPolicy =>
      victim := Optimal.SelectVictim(frames, referenceString, currentIndex);
  }
}
