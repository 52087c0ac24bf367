# Virtual-memory page-replacement simulator, modelled in Dafny

The simulator steps through a reference string of page numbers. Each step either
finds the requested page in one of a fixed number of physical frames (a hit) or
loads it (a fault). A fault fills the lowest free frame, or, when every frame is
occupied, evicts the page in the frame chosen by a replacement policy: FIFO, LRU
or Belady's optimal. A page table links pages to frames. A controller drives the
engine and feeds every step result to a statistics counter. Besides the engine
there is a standalone TLB with least-recently-used replacement, the `VMConfig`
arithmetic (page size, frame count, page count), and the user interface's parser
for reference strings such as `12R, 40 w; 7:R` together with its checks on a
memory configuration.

One Dafny module per source file:

- `frame.dfy`: `Frame`.
- `page_table.dfy`: `PageTable`.
- `vm_config.dfy`: `VMConfig`.
- `fifo.dfy`, `lru.dfy`, `optimal.dfy`: the three policies.
- `policy.dfy`: the shared policy interface, as a closed variant.
- `extrema.dfy`: the "first best" scan the policies and the TLB share.
- `engine_spec.dfy`: the engine's step as a function of its state, with its invariants.
- `simulation_engine.dfy`: the engine class, proved to follow `engine_spec.dfy`.
- `statistics_tracker.dfy`: the statistics counter.
- `simulation_controller.dfy`: the controller.
- `tlb.dfy`: the TLB.
- `reference_input.dfy`: the parser and the configuration checks.
- `scenarios.dfy`: the policy comparison of the test suite.
- `wrappers.dfy`: `Option` and `Result`.

Where the source changes things in place, the model does too:

- The engine, page table, FIFO policy, TLB, statistics counter and controller are
  classes with `modifies` clauses.
- The frames are an `array`.
- The LRU, Optimal, free-frame and parser loops are `while`/`for` loops with
  invariants.

Each such method is proved against a function of its inputs and old state:

- The engine's `Step` follows `EngineSpec.StepSpec`.
- `run_all` follows `Controller.RunSpec`.
- The LRU and Optimal scans compute `LruVictim` and `OptimalVictim`.
- The TLB methods follow `LookupSpec` and `InsertSpec`.

The source's promises are then proved as lemmas about those functions.

Raised exceptions become `Result` failures:

- `StopIteration` becomes `SimulationFinished`.
- `IndexError` from a victim that is not a frame becomes `FrameIndexOutOfRange`.
- The parser's `ValueError`s become `ParseError`.
- The configuration's `ValueError`s become `ConfigError`.
- `min()` of an empty TLB becomes `NoEntryToReplace`.

## Model

| member | source | states |
|---|---|---|
| Frames.NewFrame | simulator/frame.py:6-16 | a new frame is free (holds no page) and carries the index it was given; both timestamps default to -1 |
| PageTables.PageTable.constructor | simulator/page_table.py:19-20 | a new page table has no entries |
| PageTables.PageTable.GetOrCreate | simulator/page_table.py:22-25 | an unseen page gets a default entry (its own page number, no frame, not present, not referenced, clean); an existing entry is returned unchanged; no other key is touched and keys are never removed |
| PageTables.PageTable.Get | simulator/page_table.py:27-28 | returns an entry exactly when the page has one, and that entry; never creates |
| PageTables.PageTable.AllEntries | simulator/page_table.py:30-32 | a copy with exactly the table's keys and the same entries |
| PageTables.NewEntryScenario | tests/test_page_table.py:8-15 | a new entry for page 10 has that page and no frame, and is not present, referenced or dirty; page 999, never asked for (lines 25-27), has no entry |
| PageTables.AllEntriesScenario | tests/test_page_table.py:29-35 | after asking for pages 1 and 2 the copy has two entries, for 1 and 2 |
| VmConfig.VMConfig.PageSize | simulator/vm_config.py:9-11 | `1 << offset_bits` is 2 to the power `offset_bits` |
| VmConfig.VMConfig.NumFrames | simulator/vm_config.py:13-15 | floor division: whole pages of physical memory, with less than one page left over |
| VmConfig.VMConfig.NumVirtualPages | simulator/vm_config.py:17-19 | floor division: whole pages of virtual memory, with less than one page left over |
| VmConfig.ShiftLeftIsPow2 | simulator/vm_config.py:11 | shifting left by k multiplies by 2^k |
| VmConfig.ShiftAndMask | ui/gui.py:865 | shift right and mask split any address (negative ones too) into page times 2^k plus an offset in [0, 2^k) |
| VmConfig.ShiftIsDivision | ui/src/Interface.jsx:90-91 | the page number by shift equals the page number by floor division by the page size, and the offset by mask equals the remainder |
| VmConfig.SmallConfiguration | tests/test_vm_config.py:5-17 | (256, 64, 4) has page size 16, 4 frames and 16 virtual pages |
| VmConfig.StandardConfiguration | tests/test_vm_config.py:19-28 | (65536, 4096, 8) has page size 256, 16 frames and 256 virtual pages |
| Extrema.FirstArgMaxIsFirstMax | simulator/replacement_policies/lru.py:33-35 | the scan with a strict `>` picks a maximum and no earlier index holds one, so ties go to the lowest index |
| Extrema.FirstArgMinIsFirstMin | simulator/tlb.py:39 | `min` with a key picks a minimum and no earlier element holds one |
| Extrema.ScanAdvance | simulator/replacement_policies/optimal.py:32-34 | one step of the running-best scan keeps the candidate the first maximum of the prefix scanned |
| Extrema.ScanReachesBound | simulator/replacement_policies/lru.py:19-20 | stopping early at a value no entry can exceed returns the same frame as a full scan |
| Fifo.FifoAlgorithm.constructor | simulator/replacement_policies/fifo.py:11-13 | the queue starts empty |
| Fifo.FifoAlgorithm.EnsureInitialized | simulator/replacement_policies/fifo.py:15-17 | the queue becomes 0..n-1 only when it is empty and every frame is occupied; otherwise it is unchanged |
| Fifo.FifoAlgorithm.SelectVictim | simulator/replacement_policies/fifo.py:19-32 | the choice and the new queue are those of `NextVictim` on the old queue; the reference string and the position are not read |
| Fifo.EmptyQueueFallback | simulator/replacement_policies/fifo.py:27-28 | with no queue yet and a free frame, the choice is 0 and the queue stays empty |
| Fifo.NextVictimRotates | simulator/replacement_policies/fifo.py:30-32 | a built queue yields its front, which moves to the back; the queue's contents as a multiset are unchanged |
| Fifo.NextVictimInRange | simulator/replacement_policies/fifo.py:15-31 | with n > 0 occupied frames and a queue that is empty or a permutation of 0..n-1, the choice is below n and the queue stays a permutation of 0..n-1 |
| Fifo.RoundRobin | simulator/replacement_policies/fifo.py:19-32 | successive choices of a fresh policy over full frames are 0, 1, ..., n-1, 0, 1, ... |
| Fifo.RotationStep | simulator/replacement_policies/fifo.py:30-31 | rotating the queue whose oldest frame is j gives the queue whose oldest frame is j+1 mod n |
| Lru.LastUse | simulator/replacement_policies/lru.py:22-26 | the result is -1 or an earlier position that holds the page |
| Lru.LastUseIsMostRecent | simulator/replacement_policies/lru.py:23-26 | no use of the page lies between the result and the current position |
| Lru.FindLastUse | simulator/replacement_policies/lru.py:22-26 | the backward loop returns `LastUse` |
| Lru.DistanceRange | simulator/replacement_policies/lru.py:28-31 | a distance lies in [1, unbounded]; it is unbounded exactly for a free frame or a page with no earlier use, and otherwise it is `current_index - last_use_index` |
| Lru.LruVictimChoice | simulator/replacement_policies/lru.py:15-37 | the choice is 0 without frames and in range otherwise; it is the lowest free frame or page with no earlier use when there is one; otherwise its page's last use is earliest, and the lowest index wins a tie |
| Lru.ScanStops | simulator/replacement_policies/lru.py:19-29 | the early returns give `LruVictim` |
| Lru.ScanContinues | simulator/replacement_policies/lru.py:31-35 | a frame in use advances the scan with distance `current_index - last_use_index` |
| Lru.ScanComplete | simulator/replacement_policies/lru.py:37 | a scan that passes every frame returns `LruVictim` |
| Lru.SelectVictim | simulator/replacement_policies/lru.py:9-37 | the nested loops with early returns compute `LruVictim` |
| Optimal.NextUse | simulator/replacement_policies/optimal.py:22-26 | the result is -1 or a later position that holds the page |
| Optimal.NextUseIsFirst | simulator/replacement_policies/optimal.py:23-26 | no use of the page lies between the start of the scan and the result |
| Optimal.FindNextUse | simulator/replacement_policies/optimal.py:22-26 | the forward loop from `current_index + 1` returns `NextUse` |
| Optimal.DistanceRange | simulator/replacement_policies/optimal.py:28-31 | a distance lies in [1, unbounded]; it is unbounded exactly for a free frame or a page not used after the fault, and otherwise it is `next_use_index - current_index` |
| Optimal.OptimalVictimChoice | simulator/replacement_policies/optimal.py:15-36 | the choice is 0 without frames and in range otherwise; it is the lowest free frame or page never used again when there is one; otherwise its next use is farthest, and the lowest index wins a tie; the faulting reference is not a use |
| Optimal.ScanStops | simulator/replacement_policies/optimal.py:19-29 | the early returns give `OptimalVictim` |
| Optimal.ScanContinues | simulator/replacement_policies/optimal.py:31-34 | a frame in use advances the scan with distance `next_use_index - current_index` |
| Optimal.ScanComplete | simulator/replacement_policies/optimal.py:36 | a scan that passes every frame returns `OptimalVictim` |
| Optimal.SelectVictim | simulator/replacement_policies/optimal.py:9-36 | the nested loops with early returns compute `OptimalVictim` |
| Policies.ChooseInRange | simulator/base_policy.py:15-18 | with n > 0 frames all occupied, every policy returns a frame index below n; only FIFO changes state, and its queue stays ready |
| Policies.SelectVictim | simulator/base_policy.py:9-14 | dispatch: the choice and the policy's new state are those of `Choose` |
| EngineSpec.FirstFree | simulator/simulation_engine.py:49-53 | the result is the first free frame, or none when every frame is occupied |
| EngineSpec.FirstFreeIsFirst | simulator/simulation_engine.py:50-53 | where the scan of `_find_free_frame` stops is `FirstFree` |
| EngineSpec.PageList | simulator/simulation_engine.py:55-57 | one entry per frame |
| EngineSpec.InitialIsCoherent | simulator/simulation_engine.py:42-45 | the constructed engine has every frame free and satisfies both invariants |
| EngineSpec.CoherentLink | simulator/simulation_engine.py:110-128 | frame i holds page p exactly when p's entry is present and points at i; no page is in two frames |
| EngineSpec.ResidentIffPresent | simulator/simulation_engine.py:83 | a page is in some frame exactly when its entry is present |
| EngineSpec.EvictKeepsCoherent | simulator/simulation_engine.py:112-117 | clearing the evicted page's entry (not present, no frame, not referenced) while its frame is emptied keeps the link |
| EngineSpec.LoadKeepsCoherent | simulator/simulation_engine.py:119-128 | loading a non-resident page into a free frame and pointing its entry there keeps the link |
| EngineSpec.ReplaceKeepsCoherent | simulator/simulation_engine.py:101-128 | evicting the victim's page and loading the new one keeps the link |
| EngineSpec.HitKeepsCoherent | simulator/simulation_engine.py:83-90 | a hit keeps the link |
| EngineSpec.FaultKeepsCoherent | simulator/simulation_engine.py:92-128 | a fault keeps the link on every path, the IndexError path included |
| EngineSpec.FaultOnFullFrames | simulator/simulation_engine.py:101-128 | with no free frame, a fault either fails with the policy's out-of-range choice or loads into the victim after evicting its page |
| EngineSpec.StepKeepsCoherent | simulator/simulation_engine.py:64-143 | every `step()`, failing or not, keeps the frame/page-table link |
| EngineSpec.LoadKeepsFillOrder | simulator/simulation_engine.py:119-122 | loading keeps occupied frames a prefix and timestamps ordered |
| EngineSpec.HitKeepsFillOrder | simulator/simulation_engine.py:89 | a hit only raises an occupied frame's last access to the current step |
| EngineSpec.FaultKeepsFillOrder | simulator/simulation_engine.py:97-122 | a fault loads into the first free frame or into an occupied victim |
| EngineSpec.StepKeepsFillOrder | simulator/simulation_engine.py:64-143 | frames fill lowest first and are never emptied; a free frame has both timestamps at -1; an occupied one was loaded no later than its last access, which is before the current step |
| EngineSpec.StepAdvances | simulator/simulation_engine.py:59-143 | a step fails with StopIteration exactly when finished, and then changes nothing. A successful step reports the old step index and the requested page, advances the counter by one, and is exactly one of hit and fault. The requested page is then in the reported frame, with a present, referenced entry pointing there and last access at the step. The snapshot is taken after all changes |
| EngineSpec.StepOnHit | simulator/simulation_engine.py:83-90 | on a hit only that frame's last access changes; the reported frame is the entry's frame; nothing is evicted; the page table and the policy are unchanged |
| EngineSpec.StepOnFault | simulator/simulation_engine.py:92-128 | on a fault the lowest free frame is used, with nothing evicted and the policy not asked. Otherwise the policy's victim is used: its old page's entry loses present, frame and referenced, and that page is reported as evicted. The loaded frame's load and access times become the step. The table gains the requested page's entry and loses none, and only the requested and the evicted page's entries can change. An out-of-range victim fails after the entry was created and the policy's state changed |
| EngineSpec.FaultTable | simulator/simulation_engine.py:74-128 | after a successful fault the table's keys are the old keys plus the requested page, and every other entry except the evicted page's is unchanged |
| EngineSpec.StepNeverOutOfRange | simulator/simulation_engine.py:101-109 | with at least one frame and a ready policy, a step never raises IndexError, and the policy stays ready |
| EngineSpec.StepWithoutFrames | simulator/simulation_engine.py:97-109 | with no frames, the first step raises IndexError at index 0, keeps the page-table entry it created, and does not advance |
| Engine.SimulationEngine.constructor | simulator/simulation_engine.py:32-45 | n free frames carrying their own indices, an empty table, step 0, the given policy object shared |
| Engine.SimulationEngine.HasFinished | simulator/simulation_engine.py:59-60 | true exactly when the next `step()` raises StopIteration |
| Engine.SimulationEngine.FramesAsPageList | simulator/simulation_engine.py:55-57 | one entry per frame, in frame order: the page it holds, or none |
| Engine.SimulationEngine.FindFreeFrame | simulator/simulation_engine.py:49-53 | the loop returns `FirstFree` of the frames |
| Engine.SimulationEngine.Step | simulator/simulation_engine.py:64-143 | the result and the new state are `StepSpec` of the old state, and the invariants hold again |
| Engine.SimulationEngine.StepHit | simulator/simulation_engine.py:83-90 | the hit branch's result and state are `HitSpec` |
| Engine.SimulationEngine.StepFault | simulator/simulation_engine.py:92-128 | the fault branch's result and state are `FaultSpec` |
| Engine.SimulationEngine.LoadPage | simulator/simulation_engine.py:119-128 | loading's result and state are `Load` |
| Statistics.HitsPlusFaults | simulator/statistics_tracker.py:16-18 | every recorded result is counted once, as a hit or as a fault |
| Statistics.StatisticsTracker.constructor | simulator/statistics_tracker.py:3-6 | zero counters and no results |
| Statistics.StatisticsTracker.RecordStep | simulator/statistics_tracker.py:8-14 | appends the result and adds one to exactly one counter, `hits` for a hit and `faults` otherwise |
| Statistics.StatisticsTracker.TotalAccesses | simulator/statistics_tracker.py:16-18 | `hits + faults` is the number of recorded results |
| Statistics.StatisticsTracker.Reset | simulator/statistics_tracker.py:32-35 | zero counters and no results |
| Controller.RunCoversRest | simulator/simulation_controller.py:22-27 | a successful run returns one result per remaining reference, in order: result i is step `currentStep + i` and asks for that reference. The engine ends finished, at the end of the reference string |
| Controller.RunSucceeds | simulator/simulation_controller.py:22-27 | with at least one frame and a ready policy, a run never fails |
| Controller.RunEnds | simulator/simulation_controller.py:24-27 | a finished loop holds exactly the run's results |
| Controller.StepMoves | simulator/simulation_engine.py:131-142 | a successful step reports its position and the reference there, and advances the counter |
| Controller.PrependCovers | simulator/simulation_controller.py:26 | appending step i's result in front of the results after it keeps them in order |
| Controller.LoggedExtends | simulator/simulation_controller.py:19 | recording the next step's result keeps the log in step order |
| Controller.SimulationController.constructor | simulator/simulation_controller.py:6-12 | a fresh engine over the given frames, references and policy, and zeroed statistics |
| Controller.SimulationController.IsFinished | simulator/simulation_controller.py:33-34 | equals the engine's `has_finished` |
| Controller.SimulationController.Step | simulator/simulation_controller.py:14-20 | when finished: no result and no change. Otherwise exactly one engine step (`StepSpec`), whose result is recorded; an engine error is passed on and nothing is recorded |
| Controller.SimulationController.RunAll | simulator/simulation_controller.py:22-27 | the outcome is `RunSpec` of the engine's state. On success the statistics gain exactly the returned results, the engine is finished, the results number the remaining references and carry consecutive step indexes, and the total accesses equal the reference string's length. With at least one frame and a ready policy, it always succeeds |
| Controller.SimulationController.RunStep | simulator/simulation_controller.py:24-26 | one loop pass: the run so far plus this step still yields the whole run |
| Controller.SimulationController.Reset | simulator/simulation_controller.py:29-31 | a fresh engine in its initial state over the same policy object, so a FIFO queue carries over; zeroed statistics |
| Tlbs.LruPage | simulator/tlb.py:39 | the entry with the smallest last access, the first in dictionary order among equals |
| Tlbs.Without | simulator/tlb.py:40 | removes exactly that key from the order |
| Tlbs.WithoutDistinct | simulator/tlb.py:40 | removing a present key from a list of distinct keys shortens it by one and keeps it distinct |
| Tlbs.TLB.constructor | simulator/tlb.py:14-16 | an empty TLB of the given size |
| Tlbs.TLB.Lookup | simulator/tlb.py:18-23 | result and new state are `LookupSpec`, and the TLB stays valid |
| Tlbs.TLB.Insert | simulator/tlb.py:25-41 | result and new state are `InsertSpec`; on failure nothing changes; the TLB stays valid |
| Tlbs.InsertKeepsValid | simulator/tlb.py:34-41 | insert keeps every entry under its own page, each key once in the order, and no more entries than the size |
| Tlbs.EntryCount | simulator/tlb.py:34 | the dictionary's length is the length of the key order |
| Tlbs.LookupEffect | simulator/tlb.py:18-23 | a cached page: its frame is returned and only its last access changes, to the step. Another page: nothing is returned and nothing changes |
| Tlbs.InsertEffect | simulator/tlb.py:25-41 | insert fails exactly for a new page into an empty TLB of size 0 or less. A cached page gets the new frame and step with the key set unchanged. A new page is added, and at capacity exactly the `LruPage` entry is dropped. No other entry changes |
| Tlbs.InsertThenLookup | simulator/tlb.py:18-41 | a page just inserted is found with its frame |
| Tlbs.ZeroCapacityFails | simulator/tlb.py:34-39 | a TLB of size 0 cannot take a new page |
| Tlbs.StrictlyOldest | simulator/tlb.py:39 | an entry strictly older than every other is the one replaced |
| Tlbs.ReplacesOldest | simulator/tlb.py:38-41 | inserting a new page at capacity replaces a strictly oldest entry and appends the new key |
| Tlbs.FillScenario | tests/test_tlb.py:8-24 | inserts 1, 2 and 3 into an empty TLB of size 3; after the first, page 1 hits with frame 10 and page 2 misses |
| Tlbs.LruReplacementScenario | tests/test_tlb.py:20-34 | inserting 4 into the full TLB evicts 1; 2, 3 and 4 still hit |
| Tlbs.LookupRefreshesScenario | tests/test_tlb.py:44-59 | looking 1 up at step 4 makes 2 the one evicted by inserting 4 |
| Tlbs.UpdateExistingScenario | tests/test_tlb.py:36-42 | re-inserting page 1 changes its frame to 99 and keeps a single entry |
| ReferenceInput.Decimal | ui/gui.py:229 | the decimal form of a number is all digits |
| ReferenceInput.DecimalValue | ui/gui.py:229 | `int()` of a number's decimal form is the number |
| ReferenceInput.Upper | ui/gui.py:230 | upper-casing maps a-z to A-Z and keeps everything else |
| ReferenceInput.TrimStart | ui/gui.py:214 | strips exactly the leading whitespace |
| ReferenceInput.TrimEnd | ui/gui.py:214 | strips exactly the trailing whitespace |
| ReferenceInput.StripBlank | ui/gui.py:208 | stripping leaves nothing exactly when the text is all whitespace |
| ReferenceInput.ReplaceChar | ui/gui.py:211 | every `;` becomes `,` and nothing else changes |
| ReferenceInput.SplitOn | ui/gui.py:213 | `split(",")` gives at least one piece and no piece contains the separator |
| ReferenceInput.JoinSplit | ui/gui.py:213 | joining the pieces of a split gives back the text |
| ReferenceInput.SplitJoin | ui/gui.py:213 | splitting a join of separator-free pieces gives back the pieces |
| ReferenceInput.Word | ui/gui.py:218 | the longest prefix without whitespace |
| ReferenceInput.Words | ui/gui.py:218 | `split()` gives only non-empty words |
| ReferenceInput.OperationOf | ui/gui.py:230-232 | R or r reads, W or w writes, anything else is an error |
| ReferenceInput.ParseAllStep | ui/gui.py:213-233 | one pass of the token loop |
| ReferenceInput.FirstErrorWins | ui/gui.py:213-233 | the first bad token decides the error; later tokens are not looked at |
| ReferenceInput.ParseReferenceString | ui/gui.py:207-237 | the loop over the comma-separated pieces computes `Parse` |
| ReferenceInput.ParseTokenOutcome | ui/gui.py:214-233 | a piece yields nothing exactly when it is blank, and fails only for its own form |
| ReferenceInput.ParseAllOutcome | ui/gui.py:212-234 | every non-blank piece yields exactly one pair and blank pieces none; a failure is some piece's failure |
| ReferenceInput.ParseOutcome | ui/gui.py:207-237 | blank input, and only blank input, is rejected as empty. Success is at least one pair, one per non-blank piece. "Empty after parsing" means every piece was blank |
| ReferenceInput.SemicolonIsComma | ui/gui.py:211 | `;` and `,` separate alike |
| ReferenceInput.CompactForm | ui/gui.py:224-225 | `12r` parses as address 12, read |
| ReferenceInput.ColonForm | ui/gui.py:222-223 | `12:r` parses as address 12, read |
| ReferenceInput.SpacedForm | ui/gui.py:217-221 | `12 r` parses as address 12, read |
| ReferenceInput.TokenParses | ui/gui.py:224-232 | the compact form of any access parses back to it |
| ReferenceInput.RenderRoundTrip | ui/gui.py:207-237 | parsing the comma-joined compact forms of any non-empty list of accesses gives back that list |
| ReferenceInput.ConfigAcceptedIff | ui/gui.py:246-257 | the guards pass exactly when the offset is positive, both sizes are positive multiples of the page size, and physical does not exceed virtual |
| ReferenceInput.AcceptedIff | ui/gui.py:239-257 | `apply_inputs` accepts exactly when the reference string parses and the guards pass |
| ReferenceInput.AcceptedConfiguration | ui/gui.py:246-257 | an accepted configuration has whole pages in both memories, at least one frame, and no more frames than virtual pages |
| Scenarios.FirstNone | tests/test_policies.py:25-26 | `frames.index(None)`: the first free slot, after only occupied ones |
| Scenarios.HarnessCountsEveryReference | tests/test_policies.py:15-37 | every reference is counted once, as a hit or as a fault |
| Scenarios.HitAt | tests/test_policies.py:18-21 | a resident page counts a hit and changes nothing else |
| Scenarios.LoadAt | tests/test_policies.py:25-28 | a missing page goes into the first free slot |
| Scenarios.ReplaceAt | tests/test_policies.py:29-33 | with every slot taken, the policy's victim is replaced |
| Scenarios.FifoChoice | simulator/replacement_policies/fifo.py:30-32 | a built queue yields its front and rotates |
| Scenarios.FifoFirstChoice | simulator/replacement_policies/fifo.py:15-17 | the first replacement over three full frames builds the queue 0 1 2 |
| Scenarios.FifoScenario | tests/test_policies.py:47-58 | FIFO on 7 0 1 2 0 3 0 4 2 3 0 3 2 with three frames: 3 hits and 10 faults |
| Scenarios.LruScenario | tests/test_policies.py:47-58 | LRU on the same stream: 4 hits and 9 faults |
| Scenarios.OptimalScenario | tests/test_policies.py:47-58 | Optimal on the same stream: 6 hits and 7 faults |

## Left out

- The pygame interface (layout, widgets, event loop, drawing) and the random
  reference-string generator in ui/gui.py. They are rendering, I/O and randomness.
- ui/src/Interface.jsx and ui/src/main.jsx, a separate React simulator. Only the
  address split by division is used, in `ShiftIsDivision`.
- main.py and run_ui.py. They only print and launch.
- The float ratios `hit_ratio` and `fault_ratio`, and percentage formatting.
  They are floating point.
- simulator/simulation_step_result.py and the engine interface that
  tests/test_engine.py expects (VMConfig, TLB, dirty pages, write-back). The
  engine shown does not have it. The engine's own result record is modelled.
- Page-table entries and frames are values written back under their key or
  index, not shared objects. So the aliasing of `get_or_create`, `get` and
  `all_entries` is lost: they hand out the table's own entry objects, and a change
  made through one of them shows in the table. tests/test_page_table.py:17-23
  (`test_get_existing`) relies on that and is not modelled. The engine's own
  in-place updates to entries are modelled by writing the updated entry back.
- The integer fields of `apply_inputs` (`int(text or 0)`) are not modelled. The
  checks take the three numbers directly.
- Python's `isspace`, `isdigit` and `upper` beyond ASCII and Latin-1 whitespace.
  Unicode digits such as superscripts, and non-ASCII case mappings, are not
  modelled.
- VmConfig.VMConfig.PageSize: requires `offset_bits >= 0`, because Python raises
  on a negative shift count.
- Policies.SelectVictim: requires `current_index <= len(reference_string)`. The
  engine never calls it otherwise; past that point LRU would index beyond the list.
- Policies.SelectVictim: requires every frame to be occupied, the precondition
  stated by simulator/base_policy.py:16-18. Lru.SelectVictim and
  Optimal.SelectVictim also handle free frames.
- base_policy.py's open class hierarchy is a closed variant of the three
  policies. A policy defined elsewhere is not modelled.
- Controller.SimulationController.RunAll: when a step raises, the results
  collected so far are lost with the exception, as in the source. The model returns
  only the error.
