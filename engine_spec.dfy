/** What one `SimulationEngine.step()` (simulator/simulation_engine.py) does, as a
    function of the engine's state: the frames, the page table, the policy's state
    and the step counter. The class in simulation_engine.dfy is proved to follow it;
    the invariants are proved here. */
module EngineSpec {
  import opened Wrappers
  import opened Frames
  import opened PageTables
  import opened Policies
  import Fifo

  /** The engine's own step record (simulation_engine.py:10-23). */
  datatype SimulationStepResult = SimulationStepResult(
    stepIndex: int,
    requestedPage: int,
    hit: bool,
    fault: bool,
    frameIndex: Option<int>,
    evictedPage: Option<int>,
    victimFrameIndex: Option<int>,
    framesSnapshot: seq<Option<int>>)

  /** StopIteration once the reference string is used up; IndexError when the
      policy's choice is not a frame (with no frames at all, every policy answers 0). */
  datatype StepError = SimulationFinished | FrameIndexOutOfRange(index: int)

  datatype EngineState = EngineState(
    frames: seq<Frame>,
    table: map<int, PageTableEntry>,
    policy: PolicyState,
    currentStep: nat)

  /** `_frames_as_page_list`: the occupant of every frame, in frame order. */
  function PageList(frames: seq<Frame>): (r: seq<Option<int>>)
    ensures |r| == |frames|
  {
    seq(|frames|, i requires 0 <= i < |frames| => frames[i].page)
  }

  /** `_find_free_frame`, as the position of the frame it returns. */
  function FirstFree(frames: seq<Frame>): (r: Option<nat>)
    ensures r.Some? ==> r.value < |frames| && frames[r.value].IsFree()
    ensures r.Some? ==> forall j :: 0 <= j < r.value ==> !frames[j].IsFree()
    ensures r.None? ==> forall j :: 0 <= j < |frames| ==> !frames[j].IsFree()
    decreases |frames|
  {
    if |frames| == 0 then None
    else if frames[0].IsFree() then Some(0)
    else match FirstFree(frames[1..])
      case None => None
      case Some(k) => Some(k + 1)
  }

  /** FirstFree names the first free frame at or after which the scan of `_find_free_frame` stops. */
  lemma FirstFreeIsFirst(frames: seq<Frame>, i: nat)
    requires i <= |frames|
    requires forall j :: 0 <= j < i ==> !frames[j].IsFree()
    requires i < |frames| ==> frames[i].IsFree()
    ensures FirstFree(frames) == if i < |frames| then Some(i) else None
  {
  }

  /** The engine as constructed: n free frames with their own indices, an empty table, step 0. */
  function Initial(numFrames: int, policy: PolicyState): EngineState
  {
    var n := if numFrames > 0 then numFrames else 0;
    EngineState(seq(n, i requires 0 <= i < n => NewFrame(i)), map[], policy, 0)
  }

  /** Page p sits in frame i according to the page table. */
  ghost predicate Maps(table: map<int, PageTableEntry>, p: int, i: int)
  {
    p in table && table[p].present && table[p].frameIndex == Some(i)
  }

  /** The link between frames and page table: a frame holds page p exactly when p's
      entry is present and points at that frame. Also: every frame carries its own
      index, entries are keyed by their page, an entry has a frame exactly when it is
      present, is referenced exactly when present, and is never dirty. */
  ghost predicate Coherent(s: EngineState)
  {
    && WellKeyed(s.table)
    && (forall i :: 0 <= i < |s.frames| ==> s.frames[i].index == i)
    && (forall i :: 0 <= i < |s.frames| && s.frames[i].page.Some? ==> Maps(s.table, s.frames[i].page.value, i))
    && (forall p :: p in s.table && s.table[p].present ==>
          && s.table[p].frameIndex.Some?
          && 0 <= s.table[p].frameIndex.value < |s.frames|
          && s.frames[s.table[p].frameIndex.value].page == Some(p))
    && (forall p :: p in s.table ==>
          && (s.table[p].frameIndex.Some? ==> s.table[p].present)
          && s.table[p].referenced == s.table[p].present
          && !s.table[p].dirty)
  }

  /** Frames are filled lowest first and never emptied again, so the occupied ones
      form a prefix; a free frame still has both timestamps at -1, an occupied one was
      loaded no later than its last access, which lies before the current step. */
  ghost predicate FillsInOrder(s: EngineState)
  {
    && (forall i, j :: 0 <= i < j < |s.frames| && s.frames[j].page.Some? ==> s.frames[i].page.Some?)
    && (forall i :: 0 <= i < |s.frames| && s.frames[i].page.None? ==>
          s.frames[i].loadedTime == -1 && s.frames[i].lastAccessTime == -1)
    && (forall i :: 0 <= i < |s.frames| && s.frames[i].page.Some? ==>
          0 <= s.frames[i].loadedTime <= s.frames[i].lastAccessTime < s.currentStep)
  }

  /** Entry of `page` after eviction: `present=False`, `frame_index=None`, `referenced=False`. */
  function Evict(table: map<int, PageTableEntry>, page: int): map<int, PageTableEntry>
  {
    var t := EnsureEntry(table, page);
    t[page := t[page].(present := false, frameIndex := None, referenced := false)]
  }

  /** Step 3 of a fault: load `page` into frame fi and point its entry at the frame. */
  function Load(s: EngineState, table: map<int, PageTableEntry>, page: int, fi: nat,
                victim: Option<int>, evicted: Option<int>): (Result<SimulationStepResult, StepError>, EngineState)
    requires fi < |s.frames| && page in table
  {
    var frame := s.frames[fi];
    var frames := s.frames[fi := frame.(page := Some(page), loadedTime := s.currentStep, lastAccessTime := s.currentStep)];
    var table' := table[page := table[page].(present := true, frameIndex := Some(frame.index), referenced := true)];
    var r := SimulationStepResult(s.currentStep, page, false, true, Some(frame.index), evicted, victim, PageList(frames));
    (Success(r), EngineState(frames, table', s.policy, s.currentStep + 1))
  }

  /** A hit on `page`, already in frame fi: that frame's last access becomes the
      step and the entry is marked referenced. */
  function HitSpec(s: EngineState, page: int, fi: nat): (Result<SimulationStepResult, StepError>, EngineState)
    requires fi < |s.frames| && page in s.table
  {
    var frames := s.frames[fi := s.frames[fi].(lastAccessTime := s.currentStep)];
    var table := s.table[page := s.table[page].(referenced := true)];
    var r := SimulationStepResult(s.currentStep, page, true, false, Some(fi), None, None, PageList(frames));
    (Success(r), EngineState(frames, table, s.policy, s.currentStep + 1))
  }

  /** A fault on `page`, whose entry exists: load into the first free frame, or
      else into the policy's victim after evicting its page. */
  function FaultSpec(s: EngineState, page: int, referenceString: seq<int>): (Result<SimulationStepResult, StepError>, EngineState)
    requires page in s.table && s.currentStep <= |referenceString|
  {
    match FirstFree(s.frames)
    case Some(fi) => Load(s, s.table, page, fi, None, None)
    case None =>
      var (victim, policy) := Choose(s.policy, PageList(s.frames), referenceString, s.currentStep);
      if victim >= |s.frames| then
        (Failure(FrameIndexOutOfRange(victim)), s.(policy := policy))
      else
        var evicted := s.frames[victim].page;
        var table := if evicted.Some? then Evict(s.table, evicted.value) else s.table;
        Load(s.(policy := policy), table, page, victim, Some(victim), evicted)
  }

  /** A fault with no free frame: the error, or the load into the victim. */
  lemma FaultOnFullFrames(s: EngineState, page: int, referenceString: seq<int>)
    requires page in s.table && s.currentStep <= |referenceString| && FirstFree(s.frames).None?
    ensures var (victim, policy) := Choose(s.policy, PageList(s.frames), referenceString, s.currentStep);
      && (victim >= |s.frames| ==>
            FaultSpec(s, page, referenceString) == (Failure(FrameIndexOutOfRange(victim)), s.(policy := policy)))
      && (victim < |s.frames| ==>
            var evicted := s.frames[victim].page;
            FaultSpec(s, page, referenceString)
            == Load(s.(policy := policy), if evicted.Some? then Evict(s.table, evicted.value) else s.table,
                    page, victim, Some(victim), evicted))
  {
  }

  /** The state once `get_or_create` has made sure `page` has an entry. */
  function WithEntry(s: EngineState, page: int): EngineState
  {
    s.(table := EnsureEntry(s.table, page))
  }

  /** One `step()`: the result (or the error raised) and the state afterwards. */
  function StepSpec(s: EngineState, referenceString: seq<int>): (Result<SimulationStepResult, StepError>, EngineState)
    requires Coherent(s)
  {
    if s.currentStep >= |referenceString| then (Failure(SimulationFinished), s)
    else
      var page := referenceString[s.currentStep];
      var s1 := WithEntry(s, page);
      var pte := s1.table[page];
      if pte.present && pte.frameIndex.Some? then HitSpec(s1, page, pte.frameIndex.value)
      else FaultSpec(s1, page, referenceString)
  }

  /** The frame/page-table link read both ways, and its consequence that no page
      sits in two frames. */
  lemma CoherentLink(s: EngineState)
    requires Coherent(s)
    ensures forall i, p :: 0 <= i < |s.frames| ==> (s.frames[i].page == Some(p) <==> Maps(s.table, p, i))
    ensures forall i, j ::
              0 <= i < |s.frames| && 0 <= j < |s.frames| && s.frames[i].page.Some? && s.frames[i].page == s.frames[j].page
              ==> i == j
  {
    forall i, p | 0 <= i < |s.frames| && Maps(s.table, p, i)
      ensures s.frames[i].page == Some(p)
    {
    }
  }

  /** A page is in some frame exactly when its entry is present. */
  lemma ResidentIffPresent(s: EngineState, page: int)
    requires Coherent(s)
    ensures Some(page) in PageList(s.frames) <==> page in s.table && s.table[page].present
  {
    if page in s.table && s.table[page].present {
      assert PageList(s.frames)[s.table[page].frameIndex.value] == Some(page);
    }
  }

  /** The constructed engine satisfies both invariants. */
  lemma InitialIsCoherent(numFrames: int, policy: PolicyState)
    ensures Coherent(Initial(numFrames, policy)) && FillsInOrder(Initial(numFrames, policy))
    ensures forall i :: 0 <= i < |Initial(numFrames, policy).frames| ==> Initial(numFrames, policy).frames[i].IsFree()
  {
  }

  /** Taking page e out of frame v and clearing e's entry keeps the link. */
  lemma EvictKeepsCoherent(s: EngineState, v: nat, e: int)
    requires Coherent(s) && v < |s.frames| && s.frames[v].page == Some(e)
    ensures Coherent(s.(frames := s.frames[v := s.frames[v].(page := None)], table := Evict(s.table, e)))
  {
    CoherentLink(s);
    var s' := s.(frames := s.frames[v := s.frames[v].(page := None)], table := Evict(s.table, e));
    assert e in s.table;
    forall p | p in s'.table && s'.table[p].present
      ensures s'.table[p].frameIndex.Some?
      ensures 0 <= s'.table[p].frameIndex.value < |s'.frames|
      ensures s'.frames[s'.table[p].frameIndex.value].page == Some(p)
    {
      assert p != e && s'.table[p] == s.table[p];
      assert s'.table[p].frameIndex.value != v;
    }
  }

  /** Loading a page that no frame holds into a free frame keeps the link. */
  lemma LoadKeepsCoherent(s: EngineState, table: map<int, PageTableEntry>, page: int, fi: nat,
                          victim: Option<int>, evicted: Option<int>)
    requires fi < |s.frames| && page in table
    requires Coherent(s.(table := table))
    requires s.frames[fi].page.None? && !table[page].present
    ensures Coherent(Load(s, table, page, fi, victim, evicted).1)
  {
    var s0 := s.(table := table);
    CoherentLink(s0);
    var s' := Load(s, table, page, fi, victim, evicted).1;
    forall i | 0 <= i < |s'.frames| && s'.frames[i].page.Some?
      ensures Maps(s'.table, s'.frames[i].page.value, i)
    {
      if i != fi {
        assert s'.frames[i].page != Some(page);
      }
    }
    forall p | p in s'.table && s'.table[p].present
      ensures s'.table[p].frameIndex.Some?
      ensures 0 <= s'.table[p].frameIndex.value < |s'.frames|
      ensures s'.frames[s'.table[p].frameIndex.value].page == Some(p)
    {
      if p != page {
        assert s'.table[p] == table[p];
        assert s'.table[p].frameIndex.value != fi;
      }
    }
  }

  /** A fault with every frame occupied: evict the victim's page, then load. */
  lemma ReplaceKeepsCoherent(s: EngineState, table: map<int, PageTableEntry>, page: int, victim: nat, policy: PolicyState)
    requires Coherent(s.(table := table)) && page in table && !table[page].present
    requires victim < |s.frames| && s.frames[victim].page.Some?
    ensures var e := s.frames[victim].page.value;
      Coherent(Load(s.(policy := policy), Evict(table, e), page, victim, Some(victim), Some(e)).1)
  {
    var e := s.frames[victim].page.value;
    var s1 := s.(table := table, policy := policy);
    EvictKeepsCoherent(s1, victim, e);
    var s2 := s1.(frames := s1.frames[victim := s1.frames[victim].(page := None)], table := Evict(table, e));
    assert e != page;
    LoadKeepsCoherent(s2, s2.table, page, victim, Some(victim), Some(e));
    assert Load(s2, s2.table, page, victim, Some(victim), Some(e)).1
        == Load(s.(policy := policy), s2.table, page, victim, Some(victim), Some(e)).1;
  }

  /** A hit changes no frame's occupant and no entry's link. */
  lemma HitKeepsCoherent(s: EngineState, page: int, fi: nat)
    requires Coherent(s) && fi < |s.frames| && Maps(s.table, page, fi)
    ensures Coherent(HitSpec(s, page, fi).1)
  {
  }

  /** A fault keeps the link on every path: loading into a free frame, replacing a
      victim, and the IndexError path, which changes only the policy's state. */
  lemma FaultKeepsCoherent(s: EngineState, page: int, referenceString: seq<int>)
    requires Coherent(s) && page in s.table && !s.table[page].present && s.currentStep <= |referenceString|
    ensures Coherent(FaultSpec(s, page, referenceString).1)
  {
    match FirstFree(s.frames)
    case Some(fi) =>
      LoadKeepsCoherent(s, s.table, page, fi, None, None);
    case None =>
      var (victim, policy) := Choose(s.policy, PageList(s.frames), referenceString, s.currentStep);
      if victim < |s.frames| {
        assert s.(table := s.table) == s;
        ReplaceKeepsCoherent(s, s.table, page, victim, policy);
      }
  }

  /** `step()` keeps the link between frames and page table on every path, the
      error paths included. */
  lemma StepKeepsCoherent(s: EngineState, referenceString: seq<int>)
    requires Coherent(s)
    ensures Coherent(StepSpec(s, referenceString).1)
  {
    if s.currentStep < |referenceString| {
      var page := referenceString[s.currentStep];
      var s1 := WithEntry(s, page);
      assert Coherent(s1);
      var pte := s1.table[page];
      if pte.present && pte.frameIndex.Some? {
        HitKeepsCoherent(s1, page, pte.frameIndex.value);
      } else {
        FaultKeepsCoherent(s1, page, referenceString);
      }
    }
  }

  /** Loading into a frame that has only occupied frames before it keeps the fill order. */
  lemma LoadKeepsFillOrder(s: EngineState, table: map<int, PageTableEntry>, page: int, fi: nat,
                           victim: Option<int>, evicted: Option<int>)
    requires fi < |s.frames| && page in table && FillsInOrder(s)
    requires forall j :: 0 <= j < fi ==> s.frames[j].page.Some?
    ensures FillsInOrder(Load(s, table, page, fi, victim, evicted).1)
  {
    var s' := Load(s, table, page, fi, victim, evicted).1;
    forall i, j | 0 <= i < j < |s'.frames| && s'.frames[j].page.Some?
      ensures s'.frames[i].page.Some?
    {
      if j != fi && i != fi {
        assert s.frames[j].page.Some?;
      }
    }
  }

  /** A hit only moves an occupied frame's last access up to the current step. */
  lemma HitKeepsFillOrder(s: EngineState, page: int, fi: nat)
    requires FillsInOrder(s) && fi < |s.frames| && page in s.table && s.frames[fi].page.Some?
    ensures FillsInOrder(HitSpec(s, page, fi).1)
  {
  }

  /** A fault loads into the first free frame or into an occupied victim. */
  lemma FaultKeepsFillOrder(s: EngineState, page: int, referenceString: seq<int>)
    requires FillsInOrder(s) && page in s.table && s.currentStep <= |referenceString|
    ensures FillsInOrder(FaultSpec(s, page, referenceString).1)
  {
    match FirstFree(s.frames)
    case Some(fi) =>
      LoadKeepsFillOrder(s, s.table, page, fi, None, None);
    case None =>
      var (victim, policy) := Choose(s.policy, PageList(s.frames), referenceString, s.currentStep);
      if victim < |s.frames| {
        var e := s.frames[victim].page;
        var table := if e.Some? then Evict(s.table, e.value) else s.table;
        LoadKeepsFillOrder(s.(policy := policy), table, page, victim, Some(victim), e);
      }
  }

  /** Frames keep filling lowest first and the timestamps stay ordered. */
  lemma StepKeepsFillOrder(s: EngineState, referenceString: seq<int>)
    requires Coherent(s) && FillsInOrder(s)
    ensures FillsInOrder(StepSpec(s, referenceString).1)
  {
    if s.currentStep < |referenceString| {
      var page := referenceString[s.currentStep];
      var s1 := WithEntry(s, page);
      var pte := s1.table[page];
      if pte.present && pte.frameIndex.Some? {
        var fi := pte.frameIndex.value;
        assert s.frames[fi].page == Some(page);
        HitKeepsFillOrder(s1, page, fi);
      } else {
        FaultKeepsFillOrder(s1, page, referenceString);
      }
    }
  }

  /** Every step either fails and leaves the frames and the counter alone, or
      reports the position it processed, advances the counter by one, is exactly one
      of hit and fault, and leaves the requested page in the reported frame with a
      present, referenced entry pointing there; the snapshot is taken after all changes. */
  lemma StepAdvances(s: EngineState, referenceString: seq<int>)
    requires Coherent(s)
    ensures var (r, s') := StepSpec(s, referenceString);
      && (r == Failure(SimulationFinished) <==> s.currentStep >= |referenceString|)
      && (s.currentStep >= |referenceString| ==> s' == s)
      && (r.Failure? ==> s'.frames == s.frames && s'.currentStep == s.currentStep)
      && (r.Success? ==>
            && s.currentStep < |referenceString|
            && r.value.stepIndex == s.currentStep
            && s'.currentStep == s.currentStep + 1
            && r.value.requestedPage == referenceString[s.currentStep]
            && r.value.hit != r.value.fault
            && r.value.frameIndex.Some?
            && 0 <= r.value.frameIndex.value < |s'.frames|
            && s'.frames[r.value.frameIndex.value].page == Some(r.value.requestedPage)
            && s'.frames[r.value.frameIndex.value].lastAccessTime == s.currentStep
            && Maps(s'.table, r.value.requestedPage, r.value.frameIndex.value)
            && s'.table[r.value.requestedPage].referenced
            && r.value.framesSnapshot == PageList(s'.frames))
      && |s'.frames| == |s.frames|
  {
    if s.currentStep < |referenceString| {
      var page := referenceString[s.currentStep];
      var s1 := WithEntry(s, page);
      var pte := s1.table[page];
      if pte.present && pte.frameIndex.Some? {
        assert StepSpec(s, referenceString) == HitSpec(s1, page, pte.frameIndex.value);
      } else {
        assert StepSpec(s, referenceString) == FaultSpec(s1, page, referenceString);
      }
    }
  }

  /** A hit: the requested page is in a frame. Only that frame's last access time
      changes (to the step), the page table is left as it was, nothing is evicted,
      and the reported frame is the one the page's entry points at. */
  lemma StepOnHit(s: EngineState, referenceString: seq<int>, i: nat)
    requires Coherent(s) && s.currentStep < |referenceString|
    requires i < |s.frames| && s.frames[i].page == Some(referenceString[s.currentStep])
    ensures var (r, s') := StepSpec(s, referenceString);
      && r.Success? && r.value.hit && !r.value.fault
      && r.value.frameIndex == Some(i) == s.table[referenceString[s.currentStep]].frameIndex
      && r.value.evictedPage.None? && r.value.victimFrameIndex.None?
      && s'.frames == s.frames[i := s.frames[i].(lastAccessTime := s.currentStep)]
      && PageList(s'.frames) == PageList(s.frames)
      && s'.table == s.table
      && s'.policy == s.policy
  {
    var page := referenceString[s.currentStep];
    assert Maps(s.table, page, i);
    assert EnsureEntry(s.table, page) == s.table;
    assert s.table[page := s.table[page].(referenced := true)] == s.table;
  }

  /** The page table after a successful fault: the requested page's entry is added
      if it was missing, no entry is removed, and only the requested and the evicted
      page's entries can differ. */
  lemma FaultTable(s: EngineState, referenceString: seq<int>)
    requires Coherent(s) && s.currentStep < |referenceString|
    requires Some(referenceString[s.currentStep]) !in PageList(s.frames)
    ensures var (r, s') := StepSpec(s, referenceString);
      var page := referenceString[s.currentStep];
      r.Success? ==>
        && s'.table.Keys == s.table.Keys + {page}
        && (forall q :: q in s.table && q != page && Some(q) != r.value.evictedPage ==> s'.table[q] == s.table[q])
  {
    var page := referenceString[s.currentStep];
    ResidentIffPresent(s, page);
    var t1 := EnsureEntry(s.table, page);
    assert t1.Keys == s.table.Keys + {page};
    if FirstFree(s.frames).None? {
      var (victim, policy) := Choose(s.policy, PageList(s.frames), referenceString, s.currentStep);
      if victim < |s.frames| && s.frames[victim].page.Some? {
        assert Evict(t1, s.frames[victim].page.value).Keys == t1.Keys;
      }
    }
  }

  /** A fault: the requested page is in no frame. It is loaded into the lowest free
      frame when there is one, with nothing evicted and the policy not consulted;
      otherwise into the frame the policy chooses, whose old page loses its frame
      (present, frame link and referenced cleared) and is reported as evicted. The
      loaded frame's load and access times become the step; no other frame changes.
      The table gains the requested page's entry and loses none; entries other than
      the requested and the evicted page are untouched. */
  lemma StepOnFault(s: EngineState, referenceString: seq<int>)
    requires Coherent(s) && s.currentStep < |referenceString|
    requires Some(referenceString[s.currentStep]) !in PageList(s.frames)
    ensures var (r, s') := StepSpec(s, referenceString);
      var page := referenceString[s.currentStep];
      var (victim, policy) := Choose(s.policy, PageList(s.frames), referenceString, s.currentStep);
      && (FirstFree(s.frames).Some? || victim < |s.frames| ==>
            && r.Success? && r.value.fault && !r.value.hit
            && var fi := r.value.frameIndex.value;
            && 0 <= fi < |s.frames|
            && s'.frames == s.frames[fi := s.frames[fi].(page := Some(page), loadedTime := s.currentStep, lastAccessTime := s.currentStep)]
            && s'.table.Keys == s.table.Keys + {page}
            && (forall q :: q in s.table && q != page && Some(q) != r.value.evictedPage ==> s'.table[q] == s.table[q])
            && (FirstFree(s.frames).Some? ==>
                  && fi == FirstFree(s.frames).value
                  && r.value.evictedPage.None? && r.value.victimFrameIndex.None?
                  && s'.policy == s.policy)
            && (FirstFree(s.frames).None? ==>
                  && fi == victim && r.value.victimFrameIndex == Some(victim)
                  && r.value.evictedPage == s.frames[victim].page
                  && r.value.evictedPage.Some?
                  && var e := r.value.evictedPage.value;
                  && e in s.table && e in s'.table
                  && s'.table[e] == s.table[e].(present := false, frameIndex := None, referenced := false)
                  && s'.policy == policy))
      && (FirstFree(s.frames).None? && victim >= |s.frames| ==>
            && r == Failure(FrameIndexOutOfRange(victim))
            && s' == s.(table := EnsureEntry(s.table, page), policy := policy))
  {
    var page := referenceString[s.currentStep];
    ResidentIffPresent(s, page);
    FaultTable(s, referenceString);
    match FirstFree(s.frames)
    case Some(fi) =>
    case None =>
      var (victim, policy) := Choose(s.policy, PageList(s.frames), referenceString, s.currentStep);
      if victim < |s.frames| {
        CoherentLink(s);
        assert s.frames[victim].page != Some(page) by {
          assert PageList(s.frames)[victim] == s.frames[victim].page;
        }
      }
  }

  /** The state the engine keeps its policy in, for its own number of frames. */
  ghost predicate PolicyReady(s: EngineState)
  {
    Ready(s.policy, |s.frames|)
  }

  /** With at least one frame and a ready policy, a step never raises IndexError,
      and the policy stays ready. */
  lemma StepNeverOutOfRange(s: EngineState, referenceString: seq<int>)
    requires Coherent(s) && PolicyReady(s) && |s.frames| > 0
    ensures !StepSpec(s, referenceString).0.Failure? || StepSpec(s, referenceString).0.error == SimulationFinished
    ensures PolicyReady(StepSpec(s, referenceString).1)
  {
    if s.currentStep < |referenceString| {
      var page := referenceString[s.currentStep];
      var pte := EnsureEntry(s.table, page)[page];
      if !(pte.present && pte.frameIndex.Some?) && FirstFree(s.frames).None? {
        ChooseInRange(s.policy, PageList(s.frames), referenceString, s.currentStep);
      }
    }
  }

  /** Without frames, the first reference that has to be loaded raises IndexError at
      index 0: there is no free frame, and every ready policy answers 0. The entry of
      the requested page has been created by then and stays. */
  lemma StepWithoutFrames(s: EngineState, referenceString: seq<int>)
    requires Coherent(s) && PolicyReady(s) && |s.frames| == 0 && s.currentStep < |referenceString|
    ensures StepSpec(s, referenceString).0 == Failure(FrameIndexOutOfRange(0))
    ensures StepSpec(s, referenceString).1.table == EnsureEntry(s.table, referenceString[s.currentStep])
    ensures StepSpec(s, referenceString).1.currentStep == s.currentStep
  {
    var page := referenceString[s.currentStep];
    assert page !in s.table || !s.table[page].present;
  }
}
