/** The simulation engine (simulator/simulation_engine.py): a fixed array of frames,
    a page table, the replacement policy and a step counter over a reference string
    of page numbers. Each `Step` is proved to do what `EngineSpec.StepSpec` says, and
    so to keep the frame/page-table link and the fill order. */
module Engine {
  import opened Wrappers
  import opened Frames
  import opened PageTables
  import opened Policies
  import opened EngineSpec
  import Fifo

  class SimulationEngine {
    const numFrames: int
    const referenceString: seq<int>
    const policy: Policy
    const frames: array<Frame>
    const pageTable: PageTable
    var currentStep: nat

    /** The engine's state as a value. */
    ghost function State(): EngineState
      reads this, frames, pageTable, policy.Repr()
    {
      EngineState(frames[..], pageTable.entries, StateOf(policy), currentStep)
    }

    ghost predicate Valid()
      reads this, frames, pageTable, policy.Repr()
    {
      && frames.Length == (if numFrames > 0 then numFrames else 0)
      && currentStep <= |referenceString|
      && Coherent(State())
      && FillsInOrder(State())
    }

    /** `num_frames` frames, each free and carrying its own index, an empty page
        table, step 0; the policy object is shared, not copied. */
    constructor (numFrames: int, referenceString: seq<int>, policy: Policy)
      ensures Valid()
      ensures this.numFrames == numFrames && this.referenceString == referenceString && this.policy == policy
      ensures fresh(frames) && fresh(pageTable)
      ensures State() == Initial(numFrames, StateOf(policy))
    {
      this.numFrames := numFrames;
      this.referenceString := referenceString;
      this.policy := policy;
      var n := if numFrames > 0 then numFrames else 0;
      frames := new Frame[n](i => NewFrame(i));
      pageTable := new PageTable();
      currentStep := 0;
      new;
      assert frames[..] == Initial(numFrames, StateOf(policy)).frames;
      InitialIsCoherent(numFrames, StateOf(policy));
    }

    /** `has_finished`: the reference string is used up, which is exactly when
        the next `step()` raises StopIteration. */
    function HasFinished(): (b: bool)
      reads this, frames, pageTable, policy.Repr()
      ensures Valid() ==> (b <==> StepSpec(State(), referenceString).0 == Failure(SimulationFinished))
    {
      currentStep >= |referenceString|
    }

    /** `_frames_as_page_list`: the page held by each frame, in frame order. */
    function FramesAsPageList(): (r: seq<Option<int>>)
      reads this, frames
      ensures |r| == frames.Length
      ensures forall i :: 0 <= i < frames.Length ==> r[i] == frames[i].page
    {
      PageList(frames[..])
    }

    /** `_find_free_frame`: the first free frame, scanning in index order. */
    method FindFreeFrame() returns (r: Option<nat>)
      ensures r == FirstFree(frames[..])
    {
      for i := 0 to frames.Length
        invariant forall j :: 0 <= j < i ==> !frames[j].IsFree()
      {
        if frames[i].IsFree() {
          FirstFreeIsFirst(frames[..], i);
          return Some(i);
        }
      }
      FirstFreeIsFirst(frames[..], frames.Length);
      return None;
    }

    /** `step()` */
    method Step() returns (r: Result<SimulationStepResult, StepError>)
      requires Valid()
      modifies this, frames, pageTable, policy.Repr()
      ensures Valid()
      ensures (r, State()) == StepSpec(old(State()), referenceString)
    {
      ghost var s := State();
      if HasFinished() {
        return Failure(SimulationFinished);
      }
      var page := referenceString[currentStep];
      var pte := pageTable.GetOrCreate(page);
      if pte.present && pte.frameIndex.Some? {
        assert 0 <= pte.frameIndex.value < frames.Length by {
          assert Maps(s.table, page, pte.frameIndex.value);
        }
        r := StepHit(page, pte);
        assert StepSpec(s, referenceString) == HitSpec(WithEntry(s, page), page, pte.frameIndex.value);
      } else {
        r := StepFault(page);
        assert StepSpec(s, referenceString) == FaultSpec(WithEntry(s, page), page, referenceString);
      }
      ghost var s' := State();
      assert (r, s') == StepSpec(s, referenceString);
      StepKeepsCoherent(s, referenceString);
      StepKeepsFillOrder(s, referenceString);
      assert Coherent(s') && FillsInOrder(s');
    }

    /** The hit branch of `step()`, after the entry of `page` has been fetched. */
    method StepHit(page: int, pte: PageTableEntry) returns (r: Result<SimulationStepResult, StepError>)
      requires page in pageTable.entries && pte == pageTable.entries[page]
      requires pte.frameIndex.Some? && 0 <= pte.frameIndex.value < frames.Length
      modifies this, frames, pageTable
      ensures (r, State()) == HitSpec(old(State()), page, pte.frameIndex.value)
    {
      var frameIndex := pte.frameIndex.value;
      frames[frameIndex] := frames[frameIndex].(lastAccessTime := currentStep);
      // the entry is shared with the table in the source: write the change back
      pageTable.entries := pageTable.entries[page := pte.(referenced := true)];
      r := Success(SimulationStepResult(currentStep, page, true, false, Some(frameIndex), None, None, FramesAsPageList()));
      currentStep := currentStep + 1;
    }

    /** The fault branch of `step()`, after the entry of `page` has been fetched. */
    method StepFault(page: int) returns (r: Result<SimulationStepResult, StepError>)
      requires WellKeyed(pageTable.entries) && page in pageTable.entries
      requires currentStep < |referenceString| && page == referenceString[currentStep]
      modifies this, frames, pageTable, policy.Repr()
      ensures (r, State()) == FaultSpec(old(State()), page, referenceString)
    {
      ghost var s1 := State();
      var freeFrame := FindFreeFrame();
      if freeFrame.Some? {
        r := LoadPage(page, freeFrame.value, None, None);
        assert FaultSpec(s1, page, referenceString) == Load(s1, s1.table, page, freeFrame.value, None, None);
        return;
      }
      var framesPages := FramesAsPageList();
      var victim := SelectVictim(policy, framesPages, referenceString, currentStep);
      FaultOnFullFrames(s1, page, referenceString);
      ghost var s2 := State();
      assert s2 == s1.(policy := StateOf(policy));
      if victim >= frames.Length {
        return Failure(FrameIndexOutOfRange(victim));
      }
      var evictedPage := frames[victim].page;
      if evictedPage.Some? {
        var oldPte := pageTable.GetOrCreate(evictedPage.value);
        pageTable.entries := pageTable.entries[evictedPage.value :=
          oldPte.(present := false, frameIndex := None, referenced := false)];
      }
      assert pageTable.entries == if evictedPage.Some? then Evict(s1.table, evictedPage.value) else s1.table;
      r := LoadPage(page, victim, Some(victim), evictedPage);
    }

    /** Step 3 of a fault: put `page` into frame `frameIndex`, point its entry there. */
    method LoadPage(page: int, frameIndex: nat, victimFrameIndex: Option<int>, evictedPage: Option<int>)
      returns (r: Result<SimulationStepResult, StepError>)
      requires frameIndex < frames.Length && page in pageTable.entries
      modifies this, frames, pageTable
      ensures (r, State()) == Load(old(State()), old(pageTable.entries), page, frameIndex, victimFrameIndex, evictedPage)
    {
      var frame := frames[frameIndex];
      frames[frameIndex] := frame.(page := Some(page), loadedTime := currentStep, lastAccessTime := currentStep);
      // `pte` is the table's own entry in the source, so it sees any change made before
      var entry := pageTable.entries[page];
      pageTable.entries := pageTable.entries[page := entry.(present := true, frameIndex := Some(frame.index), referenced := true)];
      r := Success(SimulationStepResult(currentStep, page, false, true, Some(frame.index), evictedPage, victimFrameIndex, FramesAsPageList()));
      currentStep := currentStep + 1;
    }
  }
}
