/** The policy comparison of tests/test_policies.py: its `run_simulation` loop over
    a plain list of frame occupants, and the hit and fault counts it reaches for each
    policy on the stream 7 0 1 2 0 3 0 4 2 3 0 3 2 with three frames. */
module Scenarios {
  import opened Wrappers
  import opened Policies
  import Fifo
  import Lru
  import Optimal

  /** What the loop keeps: the policy's state, the frame occupants and the two counters. */
  datatype Harness = Harness(policy: PolicyState, frames: seq<Option<int>>, hits: nat, faults: nat)

  /** `frames.index(None)`: the first free position, |frames| when there is none. */
  function FirstNone(frames: seq<Option<int>>): (k: nat)
    ensures k <= |frames|
    ensures k < |frames| ==> frames[k].None?
    ensures forall j :: 0 <= j < k ==> frames[j].Some?
  {
    if |frames| == 0 then 0
    else if frames[0].None? then 0
    else FirstNone(frames[1..]) + 1
  }

  /** One pass of the loop at position i: a hit, a load into the first free slot, or a
      replacement of the policy's victim; nothing when the victim is not a slot (the
      source raises IndexError there). */
  function HarnessStep(h: Harness, referenceString: seq<int>, i: nat): Option<Harness>
    requires i < |referenceString|
  {
    var page := referenceString[i];
    if Some(page) in h.frames then Some(h.(hits := h.hits + 1))
    else if None in h.frames then
      Some(h.(frames := h.frames[FirstNone(h.frames) := Some(page)], faults := h.faults + 1))
    else
      var (victim, policy) := Choose(h.policy, h.frames, referenceString, i);
      if victim < |h.frames| then Some(Harness(policy, h.frames[victim := Some(page)], h.hits, h.faults + 1))
      else None
  }

  /** The loop from position i to the end. */
  function RunHarness(h: Harness, referenceString: seq<int>, i: nat): Option<Harness>
    requires i <= |referenceString|
    decreases |referenceString| - i
  {
    if i == |referenceString| then Some(h)
    else
      match HarnessStep(h, referenceString, i)
      case None => None
      case Some(h') => RunHarness(h', referenceString, i + 1)
  }

  /** Every pass counts the reference once, as a hit or as a fault. */
  lemma {:induction false} HarnessCountsEveryReference(h: Harness, referenceString: seq<int>, i: nat)
    requires i <= |referenceString|
    ensures RunHarness(h, referenceString, i).Some? ==>
      var h' := RunHarness(h, referenceString, i).value;
      h'.hits + h'.faults == h.hits + h.faults + |referenceString| - i
    decreases |referenceString| - i
  {
    if i < |referenceString| && HarnessStep(h, referenceString, i).Some? {
      HarnessCountsEveryReference(HarnessStep(h, referenceString, i).value, referenceString, i + 1);
    }
  }

  const Stream: seq<int> := [7, 0, 1, 2, 0, 3, 0, 4, 2, 3, 0, 3, 2]

  /** The harness with no frame filled and nothing counted. */
  function Start(policy: PolicyState): Harness
  {
    Harness(policy, [None, None, None], 0, 0)
  }

  /** One pass of the loop, as a step of the whole run. */
  lemma Advance(h: Harness, h': Harness, referenceString: seq<int>, i: nat)
    requires i < |referenceString| && HarnessStep(h, referenceString, i) == Some(h')
    ensures RunHarness(h, referenceString, i) == RunHarness(h', referenceString, i + 1)
  {
  }

  /** A reference already in a frame counts a hit and changes nothing else. */
  lemma HitAt(h: Harness, referenceString: seq<int>, i: nat, k: nat)
    requires i < |referenceString| && k < |h.frames| && h.frames[k] == Some(referenceString[i])
    ensures HarnessStep(h, referenceString, i) == Some(h.(hits := h.hits + 1))
  {
  }

  /** A missing reference with a free slot goes into the first free slot. */
  lemma LoadAt(h: Harness, referenceString: seq<int>, i: nat, k: nat)
    requires i < |referenceString| && Some(referenceString[i]) !in h.frames
    requires k < |h.frames| && h.frames[k].None? && forall j :: 0 <= j < k ==> h.frames[j].Some?
    ensures HarnessStep(h, referenceString, i)
         == Some(h.(frames := h.frames[k := Some(referenceString[i])], faults := h.faults + 1))
  {
  }

  /** A missing reference with every slot taken replaces the policy's victim. */
  lemma ReplaceAt(h: Harness, referenceString: seq<int>, i: nat, victim: nat, policy: PolicyState)
    requires i < |referenceString| && Some(referenceString[i]) !in h.frames && None !in h.frames
    requires Choose(h.policy, h.frames, referenceString, i) == (victim, policy) && victim < |h.frames|
    ensures HarnessStep(h, referenceString, i)
         == Some(Harness(policy, h.frames[victim := Some(referenceString[i])], h.hits, h.faults + 1))
  {
  }

  /** FIFO with a queue already built: the head goes and moves to the back. */
  lemma FifoChoice(order: seq<nat>, frames: seq<Option<int>>, referenceString: seq<int>, i: nat)
    requires i <= |referenceString| && order != []
    ensures Choose(FifoState(order), frames, referenceString, i) == (order[0], FifoState(order[1..] + [order[0]]))
  {
    Fifo.NextVictimRotates(order, frames);
  }

  /** FIFO on its first replacement over three full frames: the queue is built as 0 1 2. */
  lemma FifoFirstChoice(frames: seq<Option<int>>, referenceString: seq<int>, i: nat)
    requires i <= |referenceString| && |frames| == 3 && Fifo.AllOccupied(frames)
    ensures Choose(FifoState([]), frames, referenceString, i) == (0, FifoState([0, 1, 2][1..] + [0]))
  {
    assert Fifo.Range(3) == [0, 1, 2];
  }

  lemma FifoScenarioStep0()
    ensures RunHarness(Harness(FifoState([]), [None, None, None], 0, 0), Stream, 0) == RunHarness(Harness(FifoState([]), [Some(7), None, None], 0, 1), Stream, 1)
  {
    var h0 := Harness(FifoState([]), [None, None, None], 0, 0);
    LoadAt(h0, Stream, 0, 0);
    var h1 := h0.(frames := h0.frames[0 := Some(7)], faults := 1);
    Advance(h0, h1, Stream, 0);
    assert h1 == Harness(FifoState([]), [Some(7), None, None], 0, 1);
  }

  lemma FifoScenarioStep1()
    ensures RunHarness(Harness(FifoState([]), [Some(7), None, None], 0, 1), Stream, 1) == RunHarness(Harness(FifoState([]), [Some(7), Some(0), None], 0, 2), Stream, 2)
  {
    var h1 := Harness(FifoState([]), [Some(7), None, None], 0, 1);
    LoadAt(h1, Stream, 1, 1);
    var h2 := h1.(frames := h1.frames[1 := Some(0)], faults := 2);
    Advance(h1, h2, Stream, 1);
    assert h2 == Harness(FifoState([]), [Some(7), Some(0), None], 0, 2);
  }

  lemma FifoScenarioStep2()
    ensures RunHarness(Harness(FifoState([]), [Some(7), Some(0), None], 0, 2), Stream, 2) == RunHarness(Harness(FifoState([]), [Some(7), Some(0), Some(1)], 0, 3), Stream, 3)
  {
    var h2 := Harness(FifoState([]), [Some(7), Some(0), None], 0, 2);
    LoadAt(h2, Stream, 2, 2);
    var h3 := h2.(frames := h2.frames[2 := Some(1)], faults := 3);
    Advance(h2, h3, Stream, 2);
    assert h3 == Harness(FifoState([]), [Some(7), Some(0), Some(1)], 0, 3);
  }

  lemma FifoScenarioStep3()
    ensures RunHarness(Harness(FifoState([]), [Some(7), Some(0), Some(1)], 0, 3), Stream, 3) == RunHarness(Harness(FifoState([1, 2, 0]), [Some(2), Some(0), Some(1)], 0, 4), Stream, 4)
  {
    var h3 := Harness(FifoState([]), [Some(7), Some(0), Some(1)], 0, 3);
    assert h3.frames == [Some(7), Some(0), Some(1)];
    FifoFirstChoice(h3.frames, Stream, 3);
    assert [1, 2, 0] == [0, 1, 2][1..] + [0];
    ReplaceAt(h3, Stream, 3, 0, FifoState([1, 2, 0]));
    var h4 := Harness(FifoState([1, 2, 0]), h3.frames[0 := Some(2)], 0, 4);
    Advance(h3, h4, Stream, 3);
    assert h4 == Harness(FifoState([1, 2, 0]), [Some(2), Some(0), Some(1)], 0, 4);
  }

  lemma FifoScenarioStep4()
    ensures RunHarness(Harness(FifoState([1, 2, 0]), [Some(2), Some(0), Some(1)], 0, 4), Stream, 4) == RunHarness(Harness(FifoState([1, 2, 0]), [Some(2), Some(0), Some(1)], 1, 4), Stream, 5)
  {
    var h4 := Harness(FifoState([1, 2, 0]), [Some(2), Some(0), Some(1)], 0, 4);
    HitAt(h4, Stream, 4, 1);
    var h5 := h4.(hits := 1);
    Advance(h4, h5, Stream, 4);
    assert h5 == Harness(FifoState([1, 2, 0]), [Some(2), Some(0), Some(1)], 1, 4);
  }

  lemma FifoScenarioStep5()
    ensures RunHarness(Harness(FifoState([1, 2, 0]), [Some(2), Some(0), Some(1)], 1, 4), Stream, 5) == RunHarness(Harness(FifoState([2, 0, 1]), [Some(2), Some(3), Some(1)], 1, 5), Stream, 6)
  {
    var h5 := Harness(FifoState([1, 2, 0]), [Some(2), Some(0), Some(1)], 1, 4);
    FifoChoice([1, 2, 0], h5.frames, Stream, 5);
    assert [2, 0, 1] == [1, 2, 0][1..] + [1];
    ReplaceAt(h5, Stream, 5, 1, FifoState([2, 0, 1]));
    var h6 := Harness(FifoState([2, 0, 1]), h5.frames[1 := Some(3)], 1, 5);
    Advance(h5, h6, Stream, 5);
    assert h6 == Harness(FifoState([2, 0, 1]), [Some(2), Some(3), Some(1)], 1, 5);
  }

  lemma FifoScenarioStep6()
    ensures RunHarness(Harness(FifoState([2, 0, 1]), [Some(2), Some(3), Some(1)], 1, 5), Stream, 6) == RunHarness(Harness(FifoState([0, 1, 2]), [Some(2), Some(3), Some(0)], 1, 6), Stream, 7)
  {
    var h6 := Harness(FifoState([2, 0, 1]), [Some(2), Some(3), Some(1)], 1, 5);
    FifoChoice([2, 0, 1], h6.frames, Stream, 6);
    assert [0, 1, 2] == [2, 0, 1][1..] + [2];
    ReplaceAt(h6, Stream, 6, 2, FifoState([0, 1, 2]));
    var h7 := Harness(FifoState([0, 1, 2]), h6.frames[2 := Some(0)], 1, 6);
    Advance(h6, h7, Stream, 6);
    assert h7 == Harness(FifoState([0, 1, 2]), [Some(2), Some(3), Some(0)], 1, 6);
  }

  lemma FifoScenarioStep7()
    ensures RunHarness(Harness(FifoState([0, 1, 2]), [Some(2), Some(3), Some(0)], 1, 6), Stream, 7) == RunHarness(Harness(FifoState([1, 2, 0]), [Some(4), Some(3), Some(0)], 1, 7), Stream, 8)
  {
    var h7 := Harness(FifoState([0, 1, 2]), [Some(2), Some(3), Some(0)], 1, 6);
    FifoChoice([0, 1, 2], h7.frames, Stream, 7);
    assert [1, 2, 0] == [0, 1, 2][1..] + [0];
    ReplaceAt(h7, Stream, 7, 0, FifoState([1, 2, 0]));
    var h8 := Harness(FifoState([1, 2, 0]), h7.frames[0 := Some(4)], 1, 7);
    Advance(h7, h8, Stream, 7);
    assert h8 == Harness(FifoState([1, 2, 0]), [Some(4), Some(3), Some(0)], 1, 7);
  }

  lemma FifoScenarioStep8()
    ensures RunHarness(Harness(FifoState([1, 2, 0]), [Some(4), Some(3), Some(0)], 1, 7), Stream, 8) == RunHarness(Harness(FifoState([2, 0, 1]), [Some(4), Some(2), Some(0)], 1, 8), Stream, 9)
  {
    var h8 := Harness(FifoState([1, 2, 0]), [Some(4), Some(3), Some(0)], 1, 7);
    FifoChoice([1, 2, 0], h8.frames, Stream, 8);
    assert [2, 0, 1] == [1, 2, 0][1..] + [1];
    ReplaceAt(h8, Stream, 8, 1, FifoState([2, 0, 1]));
    var h9 := Harness(FifoState([2, 0, 1]), h8.frames[1 := Some(2)], 1, 8);
    Advance(h8, h9, Stream, 8);
    assert h9 == Harness(FifoState([2, 0, 1]), [Some(4), Some(2), Some(0)], 1, 8);
  }

  lemma FifoScenarioStep9()
    ensures RunHarness(Harness(FifoState([2, 0, 1]), [Some(4), Some(2), Some(0)], 1, 8), Stream, 9) == RunHarness(Harness(FifoState([0, 1, 2]), [Some(4), Some(2), Some(3)], 1, 9), Stream, 10)
  {
    var h9 := Harness(FifoState([2, 0, 1]), [Some(4), Some(2), Some(0)], 1, 8);
    FifoChoice([2, 0, 1], h9.frames, Stream, 9);
    assert [0, 1, 2] == [2, 0, 1][1..] + [2];
    ReplaceAt(h9, Stream, 9, 2, FifoState([0, 1, 2]));
    var h10 := Harness(FifoState([0, 1, 2]), h9.frames[2 := Some(3)], 1, 9);
    Advance(h9, h10, Stream, 9);
    assert h10 == Harness(FifoState([0, 1, 2]), [Some(4), Some(2), Some(3)], 1, 9);
  }

  lemma FifoScenarioStep10()
    ensures RunHarness(Harness(FifoState([0, 1, 2]), [Some(4), Some(2), Some(3)], 1, 9), Stream, 10) == RunHarness(Harness(FifoState([1, 2, 0]), [Some(0), Some(2), Some(3)], 1, 10), Stream, 11)
  {
    var h10 := Harness(FifoState([0, 1, 2]), [Some(4), Some(2), Some(3)], 1, 9);
    FifoChoice([0, 1, 2], h10.frames, Stream, 10);
    assert [1, 2, 0] == [0, 1, 2][1..] + [0];
    ReplaceAt(h10, Stream, 10, 0, FifoState([1, 2, 0]));
    var h11 := Harness(FifoState([1, 2, 0]), h10.frames[0 := Some(0)], 1, 10);
    Advance(h10, h11, Stream, 10);
    assert h11 == Harness(FifoState([1, 2, 0]), [Some(0), Some(2), Some(3)], 1, 10);
  }

  lemma FifoScenarioStep11()
    ensures RunHarness(Harness(FifoState([1, 2, 0]), [Some(0), Some(2), Some(3)], 1, 10), Stream, 11) == RunHarness(Harness(FifoState([1, 2, 0]), [Some(0), Some(2), Some(3)], 2, 10), Stream, 12)
  {
    var h11 := Harness(FifoState([1, 2, 0]), [Some(0), Some(2), Some(3)], 1, 10);
    HitAt(h11, Stream, 11, 2);
    var h12 := h11.(hits := 2);
    Advance(h11, h12, Stream, 11);
    assert h12 == Harness(FifoState([1, 2, 0]), [Some(0), Some(2), Some(3)], 2, 10);
  }

  lemma FifoScenarioStep12()
    ensures RunHarness(Harness(FifoState([1, 2, 0]), [Some(0), Some(2), Some(3)], 2, 10), Stream, 12) == RunHarness(Harness(FifoState([1, 2, 0]), [Some(0), Some(2), Some(3)], 3, 10), Stream, 13)
  {
    var h12 := Harness(FifoState([1, 2, 0]), [Some(0), Some(2), Some(3)], 2, 10);
    HitAt(h12, Stream, 12, 1);
    var h13 := h12.(hits := 3);
    Advance(h12, h13, Stream, 12);
    assert h13 == Harness(FifoState([1, 2, 0]), [Some(0), Some(2), Some(3)], 3, 10);
  }

  /** FIFO: 3 hits and 10 faults; frame 1 is the next to go. */
  lemma FifoScenario()
    ensures RunHarness(Start(FifoState([])), Stream, 0) == Some(Harness(FifoState([1, 2, 0]), [Some(0), Some(2), Some(3)], 3, 10))
  {
    FifoScenarioStep0();
    FifoScenarioStep1();
    FifoScenarioStep2();
    FifoScenarioStep3();
    FifoScenarioStep4();
    FifoScenarioStep5();
    FifoScenarioStep6();
    FifoScenarioStep7();
    FifoScenarioStep8();
    FifoScenarioStep9();
    FifoScenarioStep10();
    FifoScenarioStep11();
    FifoScenarioStep12();
  }

  lemma LruVictimAt3()
    ensures Choose(LruState, [Some(7), Some(0), Some(1)], Stream, 3) == (0, LruState)
  {
    assert Lru.Distances([Some(7), Some(0), Some(1)], Stream, 3) == [3, 2, 1];
  }

  lemma LruVictimAt5()
    ensures Choose(LruState, [Some(2), Some(0), Some(1)], Stream, 5) == (2, LruState)
  {
    assert Lru.Distances([Some(2), Some(0), Some(1)], Stream, 5) == [2, 1, 3];
  }

  lemma LruVictimAt7()
    ensures Choose(LruState, [Some(2), Some(0), Some(3)], Stream, 7) == (0, LruState)
  {
    assert Lru.Distances([Some(2), Some(0), Some(3)], Stream, 7) == [4, 1, 2];
  }

  lemma LruVictimAt8()
    ensures Choose(LruState, [Some(4), Some(0), Some(3)], Stream, 8) == (2, LruState)
  {
    assert Lru.Distances([Some(4), Some(0), Some(3)], Stream, 8) == [1, 2, 3];
  }

  lemma LruVictimAt9()
    ensures Choose(LruState, [Some(4), Some(0), Some(2)], Stream, 9) == (1, LruState)
  {
    assert Lru.Distances([Some(4), Some(0), Some(2)], Stream, 9) == [2, 3, 1];
  }

  lemma LruVictimAt10()
    ensures Choose(LruState, [Some(4), Some(3), Some(2)], Stream, 10) == (0, LruState)
  {
    assert Lru.Distances([Some(4), Some(3), Some(2)], Stream, 10) == [3, 1, 2];
  }

  lemma LruScenarioStep0()
    ensures RunHarness(Harness(LruState, [None, None, None], 0, 0), Stream, 0) == RunHarness(Harness(LruState, [Some(7), None, None], 0, 1), Stream, 1)
  {
    var h0 := Harness(LruState, [None, None, None], 0, 0);
    LoadAt(h0, Stream, 0, 0);
    var h1 := h0.(frames := h0.frames[0 := Some(7)], faults := 1);
    Advance(h0, h1, Stream, 0);
    assert h1 == Harness(LruState, [Some(7), None, None], 0, 1);
  }

  lemma LruScenarioStep1()
    ensures RunHarness(Harness(LruState, [Some(7), None, None], 0, 1), Stream, 1) == RunHarness(Harness(LruState, [Some(7), Some(0), None], 0, 2), Stream, 2)
  {
    var h1 := Harness(LruState, [Some(7), None, None], 0, 1);
    LoadAt(h1, Stream, 1, 1);
    var h2 := h1.(frames := h1.frames[1 := Some(0)], faults := 2);
    Advance(h1, h2, Stream, 1);
    assert h2 == Harness(LruState, [Some(7), Some(0), None], 0, 2);
  }

  lemma LruScenarioStep2()
    ensures RunHarness(Harness(LruState, [Some(7), Some(0), None], 0, 2), Stream, 2) == RunHarness(Harness(LruState, [Some(7), Some(0), Some(1)], 0, 3), Stream, 3)
  {
    var h2 := Harness(LruState, [Some(7), Some(0), None], 0, 2);
    LoadAt(h2, Stream, 2, 2);
    var h3 := h2.(frames := h2.frames[2 := Some(1)], faults := 3);
    Advance(h2, h3, Stream, 2);
    assert h3 == Harness(LruState, [Some(7), Some(0), Some(1)], 0, 3);
  }

  lemma LruScenarioStep3()
    ensures RunHarness(Harness(LruState, [Some(7), Some(0), Some(1)], 0, 3), Stream, 3) == RunHarness(Harness(LruState, [Some(2), Some(0), Some(1)], 0, 4), Stream, 4)
  {
    var h3 := Harness(LruState, [Some(7), Some(0), Some(1)], 0, 3);
    assert h3.frames == [Some(7), Some(0), Some(1)];
    LruVictimAt3();
    ReplaceAt(h3, Stream, 3, 0, LruState);
    var h4 := Harness(LruState, h3.frames[0 := Some(2)], 0, 4);
    Advance(h3, h4, Stream, 3);
    assert h4 == Harness(LruState, [Some(2), Some(0), Some(1)], 0, 4);
  }

  lemma LruScenarioStep4()
    ensures RunHarness(Harness(LruState, [Some(2), Some(0), Some(1)], 0, 4), Stream, 4) == RunHarness(Harness(LruState, [Some(2), Some(0), Some(1)], 1, 4), Stream, 5)
  {
    var h4 := Harness(LruState, [Some(2), Some(0), Some(1)], 0, 4);
    HitAt(h4, Stream, 4, 1);
    var h5 := h4.(hits := 1);
    Advance(h4, h5, Stream, 4);
    assert h5 == Harness(LruState, [Some(2), Some(0), Some(1)], 1, 4);
  }

  lemma LruScenarioStep5()
    ensures RunHarness(Harness(LruState, [Some(2), Some(0), Some(1)], 1, 4), Stream, 5) == RunHarness(Harness(LruState, [Some(2), Some(0), Some(3)], 1, 5), Stream, 6)
  {
    var h5 := Harness(LruState, [Some(2), Some(0), Some(1)], 1, 4);
    assert h5.frames == [Some(2), Some(0), Some(1)];
    LruVictimAt5();
    ReplaceAt(h5, Stream, 5, 2, LruState);
    var h6 := Harness(LruState, h5.frames[2 := Some(3)], 1, 5);
    Advance(h5, h6, Stream, 5);
    assert h6 == Harness(LruState, [Some(2), Some(0), Some(3)], 1, 5);
  }

  lemma LruScenarioStep6()
    ensures RunHarness(Harness(LruState, [Some(2), Some(0), Some(3)], 1, 5), Stream, 6) == RunHarness(Harness(LruState, [Some(2), Some(0), Some(3)], 2, 5), Stream, 7)
  {
    var h6 := Harness(LruState, [Some(2), Some(0), Some(3)], 1, 5);
    HitAt(h6, Stream, 6, 1);
    var h7 := h6.(hits := 2);
    Advance(h6, h7, Stream, 6);
    assert h7 == Harness(LruState, [Some(2), Some(0), Some(3)], 2, 5);
  }

  lemma LruScenarioStep7()
    ensures RunHarness(Harness(LruState, [Some(2), Some(0), Some(3)], 2, 5), Stream, 7) == RunHarness(Harness(LruState, [Some(4), Some(0), Some(3)], 2, 6), Stream, 8)
  {
    var h7 := Harness(LruState, [Some(2), Some(0), Some(3)], 2, 5);
    assert h7.frames == [Some(2), Some(0), Some(3)];
    LruVictimAt7();
    ReplaceAt(h7, Stream, 7, 0, LruState);
    var h8 := Harness(LruState, h7.frames[0 := Some(4)], 2, 6);
    Advance(h7, h8, Stream, 7);
    assert h8 == Harness(LruState, [Some(4), Some(0), Some(3)], 2, 6);
  }

  lemma LruScenarioStep8()
    ensures RunHarness(Harness(LruState, [Some(4), Some(0), Some(3)], 2, 6), Stream, 8) == RunHarness(Harness(LruState, [Some(4), Some(0), Some(2)], 2, 7), Stream, 9)
  {
    var h8 := Harness(LruState, [Some(4), Some(0), Some(3)], 2, 6);
    assert h8.frames == [Some(4), Some(0), Some(3)];
    LruVictimAt8();
    ReplaceAt(h8, Stream, 8, 2, LruState);
    var h9 := Harness(LruState, h8.frames[2 := Some(2)], 2, 7);
    Advance(h8, h9, Stream, 8);
    assert h9 == Harness(LruState, [Some(4), Some(0), Some(2)], 2, 7);
  }

  lemma LruScenarioStep9()
    ensures RunHarness(Harness(LruState, [Some(4), Some(0), Some(2)], 2, 7), Stream, 9) == RunHarness(Harness(LruState, [Some(4), Some(3), Some(2)], 2, 8), Stream, 10)
  {
    var h9 := Harness(LruState, [Some(4), Some(0), Some(2)], 2, 7);
    assert h9.frames == [Some(4), Some(0), Some(2)];
    LruVictimAt9();
    ReplaceAt(h9, Stream, 9, 1, LruState);
    var h10 := Harness(LruState, h9.frames[1 := Some(3)], 2, 8);
    Advance(h9, h10, Stream, 9);
    assert h10 == Harness(LruState, [Some(4), Some(3), Some(2)], 2, 8);
  }

  lemma LruScenarioStep10()
    ensures RunHarness(Harness(LruState, [Some(4), Some(3), Some(2)], 2, 8), Stream, 10) == RunHarness(Harness(LruState, [Some(0), Some(3), Some(2)], 2, 9), Stream, 11)
  {
    var h10 := Harness(LruState, [Some(4), Some(3), Some(2)], 2, 8);
    assert h10.frames == [Some(4), Some(3), Some(2)];
    LruVictimAt10();
    ReplaceAt(h10, Stream, 10, 0, LruState);
    var h11 := Harness(LruState, h10.frames[0 := Some(0)], 2, 9);
    Advance(h10, h11, Stream, 10);
    assert h11 == Harness(LruState, [Some(0), Some(3), Some(2)], 2, 9);
  }

  lemma LruScenarioStep11()
    ensures RunHarness(Harness(LruState, [Some(0), Some(3), Some(2)], 2, 9), Stream, 11) == RunHarness(Harness(LruState, [Some(0), Some(3), Some(2)], 3, 9), Stream, 12)
  {
    var h11 := Harness(LruState, [Some(0), Some(3), Some(2)], 2, 9);
    HitAt(h11, Stream, 11, 1);
    var h12 := h11.(hits := 3);
    Advance(h11, h12, Stream, 11);
    assert h12 == Harness(LruState, [Some(0), Some(3), Some(2)], 3, 9);
  }

  lemma LruScenarioStep12()
    ensures RunHarness(Harness(LruState, [Some(0), Some(3), Some(2)], 3, 9), Stream, 12) == RunHarness(Harness(LruState, [Some(0), Some(3), Some(2)], 4, 9), Stream, 13)
  {
    var h12 := Harness(LruState, [Some(0), Some(3), Some(2)], 3, 9);
    HitAt(h12, Stream, 12, 2);
    var h13 := h12.(hits := 4);
    Advance(h12, h13, Stream, 12);
    assert h13 == Harness(LruState, [Some(0), Some(3), Some(2)], 4, 9);
  }

  /** LRU: 4 hits and 9 faults. */
  lemma LruScenario()
    ensures RunHarness(Start(LruState), Stream, 0) == Some(Harness(LruState, [Some(0), Some(3), Some(2)], 4, 9))
  {
    LruScenarioStep0();
    LruScenarioStep1();
    LruScenarioStep2();
    LruScenarioStep3();
    LruScenarioStep4();
    LruScenarioStep5();
    LruScenarioStep6();
    LruScenarioStep7();
    LruScenarioStep8();
    LruScenarioStep9();
    LruScenarioStep10();
    LruScenarioStep11();
    LruScenarioStep12();
  }

  lemma OptimalVictimAt3()
    ensures Choose(OptimalState, [Some(7), Some(0), Some(1)], Stream, 3) == (0, OptimalState)
  {
    assert Optimal.Distances([Some(7), Some(0), Some(1)], Stream, 3) == [14, 1, 14];
  }

  lemma OptimalVictimAt5()
    ensures Choose(OptimalState, [Some(2), Some(0), Some(1)], Stream, 5) == (2, OptimalState)
  {
    assert Optimal.Distances([Some(2), Some(0), Some(1)], Stream, 5) == [3, 1, 14];
  }

  lemma OptimalVictimAt7()
    ensures Choose(OptimalState, [Some(2), Some(0), Some(3)], Stream, 7) == (1, OptimalState)
  {
    assert Optimal.Distances([Some(2), Some(0), Some(3)], Stream, 7) == [1, 3, 2];
  }

  lemma OptimalVictimAt10()
    ensures Choose(OptimalState, [Some(2), Some(4), Some(3)], Stream, 10) == (1, OptimalState)
  {
    assert Optimal.Distances([Some(2), Some(4), Some(3)], Stream, 10) == [2, 14, 1];
  }

  lemma OptimalScenarioStep0()
    ensures RunHarness(Harness(OptimalState, [None, None, None], 0, 0), Stream, 0) == RunHarness(Harness(OptimalState, [Some(7), None, None], 0, 1), Stream, 1)
  {
    var h0 := Harness(OptimalState, [None, None, None], 0, 0);
    LoadAt(h0, Stream, 0, 0);
    var h1 := h0.(frames := h0.frames[0 := Some(7)], faults := 1);
    Advance(h0, h1, Stream, 0);
    assert h1 == Harness(OptimalState, [Some(7), None, None], 0, 1);
  }

  lemma OptimalScenarioStep1()
    ensures RunHarness(Harness(OptimalState, [Some(7), None, None], 0, 1), Stream, 1) == RunHarness(Harness(OptimalState, [Some(7), Some(0), None], 0, 2), Stream, 2)
  {
    var h1 := Harness(OptimalState, [Some(7), None, None], 0, 1);
    LoadAt(h1, Stream, 1, 1);
    var h2 := h1.(frames := h1.frames[1 := Some(0)], faults := 2);
    Advance(h1, h2, Stream, 1);
    assert h2 == Harness(OptimalState, [Some(7), Some(0), None], 0, 2);
  }

  lemma OptimalScenarioStep2()
    ensures RunHarness(Harness(OptimalState, [Some(7), Some(0), None], 0, 2), Stream, 2) == RunHarness(Harness(OptimalState, [Some(7), Some(0), Some(1)], 0, 3), Stream, 3)
  {
    var h2 := Harness(OptimalState, [Some(7), Some(0), None], 0, 2);
    LoadAt(h2, Stream, 2, 2);
    var h3 := h2.(frames := h2.frames[2 := Some(1)], faults := 3);
    Advance(h2, h3, Stream, 2);
    assert h3 == Harness(OptimalState, [Some(7), Some(0), Some(1)], 0, 3);
  }

  lemma OptimalScenarioStep3()
    ensures RunHarness(Harness(OptimalState, [Some(7), Some(0), Some(1)], 0, 3), Stream, 3) == RunHarness(Harness(OptimalState, [Some(2), Some(0), Some(1)], 0, 4), Stream, 4)
  {
    var h3 := Harness(OptimalState, [Some(7), Some(0), Some(1)], 0, 3);
    assert h3.frames == [Some(7), Some(0), Some(1)];
    OptimalVictimAt3();
    ReplaceAt(h3, Stream, 3, 0, OptimalState);
    var h4 := Harness(OptimalState, h3.frames[0 := Some(2)], 0, 4);
    Advance(h3, h4, Stream, 3);
    assert h4 == Harness(OptimalState, [Some(2), Some(0), Some(1)], 0, 4);
  }

  lemma OptimalScenarioStep4()
    ensures RunHarness(Harness(OptimalState, [Some(2), Some(0), Some(1)], 0, 4), Stream, 4) == RunHarness(Harness(OptimalState, [Some(2), Some(0), Some(1)], 1, 4), Stream, 5)
  {
    var h4 := Harness(OptimalState, [Some(2), Some(0), Some(1)], 0, 4);
    HitAt(h4, Stream, 4, 1);
    var h5 := h4.(hits := 1);
    Advance(h4, h5, Stream, 4);
    assert h5 == Harness(OptimalState, [Some(2), Some(0), Some(1)], 1, 4);
  }

  lemma OptimalScenarioStep5()
    ensures RunHarness(Harness(OptimalState, [Some(2), Some(0), Some(1)], 1, 4), Stream, 5) == RunHarness(Harness(OptimalState, [Some(2), Some(0), Some(3)], 1, 5), Stream, 6)
  {
    var h5 := Harness(OptimalState, [Some(2), Some(0), Some(1)], 1, 4);
    assert h5.frames == [Some(2), Some(0), Some(1)];
    OptimalVictimAt5();
    ReplaceAt(h5, Stream, 5, 2, OptimalState);
    var h6 := Harness(OptimalState, h5.frames[2 := Some(3)], 1, 5);
    Advance(h5, h6, Stream, 5);
    assert h6 == Harness(OptimalState, [Some(2), Some(0), Some(3)], 1, 5);
  }

  lemma OptimalScenarioStep6()
    ensures RunHarness(Harness(OptimalState, [Some(2), Some(0), Some(3)], 1, 5), Stream, 6) == RunHarness(Harness(OptimalState, [Some(2), Some(0), Some(3)], 2, 5), Stream, 7)
  {
    var h6 := Harness(OptimalState, [Some(2), Some(0), Some(3)], 1, 5);
    HitAt(h6, Stream, 6, 1);
    var h7 := h6.(hits := 2);
    Advance(h6, h7, Stream, 6);
    assert h7 == Harness(OptimalState, [Some(2), Some(0), Some(3)], 2, 5);
  }

  lemma OptimalScenarioStep7()
    ensures RunHarness(Harness(OptimalState, [Some(2), Some(0), Some(3)], 2, 5), Stream, 7) == RunHarness(Harness(OptimalState, [Some(2), Some(4), Some(3)], 2, 6), Stream, 8)
  {
    var h7 := Harness(OptimalState, [Some(2), Some(0), Some(3)], 2, 5);
    assert h7.frames == [Some(2), Some(0), Some(3)];
    OptimalVictimAt7();
    ReplaceAt(h7, Stream, 7, 1, OptimalState);
    var h8 := Harness(OptimalState, h7.frames[1 := Some(4)], 2, 6);
    Advance(h7, h8, Stream, 7);
    assert h8 == Harness(OptimalState, [Some(2), Some(4), Some(3)], 2, 6);
  }

  lemma OptimalScenarioStep8()
    ensures RunHarness(Harness(OptimalState, [Some(2), Some(4), Some(3)], 2, 6), Stream, 8) == RunHarness(Harness(OptimalState, [Some(2), Some(4), Some(3)], 3, 6), Stream, 9)
  {
    var h8 := Harness(OptimalState, [Some(2), Some(4), Some(3)], 2, 6);
    HitAt(h8, Stream, 8, 0);
    var h9 := h8.(hits := 3);
    Advance(h8, h9, Stream, 8);
    assert h9 == Harness(OptimalState, [Some(2), Some(4), Some(3)], 3, 6);
  }

  lemma OptimalScenarioStep9()
    ensures RunHarness(Harness(OptimalState, [Some(2), Some(4), Some(3)], 3, 6), Stream, 9) == RunHarness(Harness(OptimalState, [Some(2), Some(4), Some(3)], 4, 6), Stream, 10)
  {
    var h9 := Harness(OptimalState, [Some(2), Some(4), Some(3)], 3, 6);
    HitAt(h9, Stream, 9, 2);
    var h10 := h9.(hits := 4);
    Advance(h9, h10, Stream, 9);
    assert h10 == Harness(OptimalState, [Some(2), Some(4), Some(3)], 4, 6);
  }

  lemma OptimalScenarioStep10()
    ensures RunHarness(Harness(OptimalState, [Some(2), Some(4), Some(3)], 4, 6), Stream, 10) == RunHarness(Harness(OptimalState, [Some(2), Some(0), Some(3)], 4, 7), Stream, 11)
  {
    var h10 := Harness(OptimalState, [Some(2), Some(4), Some(3)], 4, 6);
    assert h10.frames == [Some(2), Some(4), Some(3)];
    OptimalVictimAt10();
    ReplaceAt(h10, Stream, 10, 1, OptimalState);
    var h11 := Harness(OptimalState, h10.frames[1 := Some(0)], 4, 7);
    Advance(h10, h11, Stream, 10);
    assert h11 == Harness(OptimalState, [Some(2), Some(0), Some(3)], 4, 7);
  }

  lemma OptimalScenarioStep11()
    ensures RunHarness(Harness(OptimalState, [Some(2), Some(0), Some(3)], 4, 7), Stream, 11) == RunHarness(Harness(OptimalState, [Some(2), Some(0), Some(3)], 5, 7), Stream, 12)
  {
    var h11 := Harness(OptimalState, [Some(2), Some(0), Some(3)], 4, 7);
    HitAt(h11, Stream, 11, 2);
    var h12 := h11.(hits := 5);
    Advance(h11, h12, Stream, 11);
    assert h12 == Harness(OptimalState, [Some(2), Some(0), Some(3)], 5, 7);
  }

  lemma OptimalScenarioStep12()
    ensures RunHarness(Harness(OptimalState, [Some(2), Some(0), Some(3)], 5, 7), Stream, 12) == RunHarness(Harness(OptimalState, [Some(2), Some(0), Some(3)], 6, 7), Stream, 13)
  {
    var h12 := Harness(OptimalState, [Some(2), Some(0), Some(3)], 5, 7);
    HitAt(h12, Stream, 12, 0);
    var h13 := h12.(hits := 6);
    Advance(h12, h13, Stream, 12);
    assert h13 == Harness(OptimalState, [Some(2), Some(0), Some(3)], 6, 7);
  }

  /** Optimal: 6 hits and 7 faults, the fewest of the three. */
  lemma OptimalScenario()
    ensures RunHarness(Start(OptimalState), Stream, 0) == Some(Harness(OptimalState, [Some(2), Some(0), Some(3)], 6, 7))
  {
    OptimalScenarioStep0();
    OptimalScenarioStep1();
    OptimalScenarioStep2();
    OptimalScenarioStep3();
    OptimalScenarioStep4();
    OptimalScenarioStep5();
    OptimalScenarioStep6();
    OptimalScenarioStep7();
    OptimalScenarioStep8();
    OptimalScenarioStep9();
    OptimalScenarioStep10();
    OptimalScenarioStep11();
    OptimalScenarioStep12();
  }
}
