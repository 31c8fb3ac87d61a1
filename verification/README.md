# Firmware analysis proofs

A Dafny model of the analyses, address arithmetic, replay machinery, patching and record keeping with
which this repository qualifies modified optical-drive firmware, and proofs about that model.
`dafny verify dfyconfig.toml` checks everything.

The program's own form is kept. Worklists, scans and merges are methods with loops; the CPU wrapper, the
cached machine, the result of a stage and the block store are classes whose methods update their fields;
arithmetic, decoding and formats are functions. Every method is tied to a specification, and the
properties the program is for are lemmas about that specification. A failed `assert`, a refused input or
a `StopIteration` of the program is `None` (or `false`), never a precondition.

## What is proved, part by part

**Static analyses.** `frame_flow`, `bind_leaves` and `branch_requirements` share one theory of worklists
(`Reachability`): whatever order the queue has, the visited set ends as the least closed set, which is
the set of nodes at the end of a path from a root.

* `FrameFlow`: the worklist succeeds if and only if the runs of the routine behave: none meets anything the
  analysis refuses, they meet no more than its limit, and all that reach the site were given the expected
  base. Then every run that reaches the site has that base in R5, whatever R5 was at entry.
* `ClassicMapping`: the search succeeds if and only if a match exists, the match is unique, and it is a
  bijection of instructions and an injection of RAM cells. `LeafSimulation` gives the match its meaning:
  every template run from either root is followed in lockstep by the source, with RAM cells renamed.
  `ClassicTemplate` holds `scripts/firmware_execution/classic_mapping_template.json`, all 83 halfwords of it.
  `ClassicWalk` executes it symbolically, and every walk is a run of the template; `ClassicInverse` and
  `ClassicForward` walk its two leaves for every state: the inverse leaf is exactly `normalize`, and the
  forward leaf undoes it. `ClassicBinding` and `DiscAudit` put the two together: code that `bind_leaves`
  accepts, anywhere in any image, computes the address map of its own cells, and on a mirrored disc gives for
  every sector its physical address and, from that address, the sector less the recorded offset. `RoutedRead`
  adds the call site: the working word of ReadValue is replaced by its physical address in place.
  `ClassicRelocation` says which code is accepted at all: exactly the copies of the template whose blocks and
  RAM cells were moved one to one. `ClassicInstance` exhibits an image for every choice of the cells.
* `Coverage` and `StageCoverage`: the walk visits exactly what runs from the root meet, and requires exactly
  the edges they take out of conditionals; the report lists exactly those that no recorded run took; a
  conversion stage that still passes has taken both ways out of every such conditional, each in one of its cases.

**Replay machine.** `Replay` is `stages.run` step by step over an arbitrary processor. The undo log takes
memory back to its initial value however a run ended, and the saved context takes back the processor that
the run left behind, so a run of the cached machine equals a run of a fresh one, whatever ran before.
`PlainRuns` tells how such a run ends, and what it returns, by the execution of a plain processor on memory that
holds the inputs, without log, hooks and guards. `StrictReads` proves non-interference, `WriteGuard` that only
permitted bytes change.

**Disc addresses.** `AddressMap` and `DiscGeometry` prove where 32-bit wrapping matters, that the map and
its piecewise inverse undo each other, and that an accepted capture of a mirrored disc addresses every
sector as the native map does.

**Native setters.** `Setter` interprets all four opcode sequences and proves the single store and its
address for all register and cell contents.

**Images and ranges.** `Allocation`, `ChangedRanges`, `Excerpts` and `Detours` prove exact
characterisations on top of one interval theory (`Intervals`), in which separated ranges are determined by
what they cover. Lists of the entries that pass a test are told by their places (`Listings`).

**Records.** `BlockStore`, `Collector`, `Fixtures`, `FixtureRoundTrip` and `RefusedFixtures` cover the fixture
writer and its loader; `Scope` the acceptance gate; `Transcript` the SCSI transcript; `Captures` the pixel scan.

## Where the code does less than one would expect

Each of these is a lemma with the exact condition under which the expectation holds.

* The sample boundaries at `scripts/firmware_execution/read_value.py:38` make two layer windows overlap, so
  two sectors share a physical address (`AddressMap.SampleBoundariesCollide`). Addresses collide exactly when two
  windows overlap (`CollidesIffWindowsOverlap`) or the last layer wraps around (`SharedAddressIff`).
* Even on well-formed boundaries the map is increasing over the whole 32-bit range only when all three layers
  fill their windows (`IncreasingEverywhereIff`); otherwise the last layer wraps to zero (`LastLayerWraps`).
* A manifest that the collector writes can be refused by the loader. It is accepted exactly when no sector
  file stores a metadata sector past the capacity of its disc, and no disc that some image repeats ends in a
  layer of one sector behind another layer (`FixtureRoundTrip.AcceptedIff`). A disc of 100 sectors with 513
  stored ones breaks the first condition (`RefusedFixtures.OversizedIsRefused`), a disc of 512 sectors and one
  more in a second layer, with an equal image, the second (`RefusedFixtures.LopsidedIsRefused`). Discs of more
  than 512 sectors with two in every later layer meet both (`FixtureRoundTrip.AmpleDiscsAreAccepted`).
* A detour decodes to its stub exactly when the distance is even and fits 23 signed bits
  (`Detours.DetourDecodesIff`). A site longer than a pair and of odd length makes the image shrink by a byte
  (`LengthKeptIff`), and a site shorter than a pair is overrun (`ShortSiteIsOverrun`).
* The comment on `has_ink` (`crates/freemkv-flash-gui/src/gui_gate.rs:250-251`) says that a capture shorter
  than its size has no ink. The code returns true when it finds a second colour before it reaches the missing
  pixels, and the model follows the code (`Captures.ShortPictureWithInk` gives an input). Over its full region
  a top-down capture of any length is without ink exactly when every stored pixel has the colour of the first
  (`Captures.TopDownInkIff`). On a bottom-up one the pixels are compared with the first of the top row, and
  while the last pixel of the capture is missing only those of that row count (`Captures.BottomUpInkIff`).
  `Captures.InkIff` is the condition for every region.

An image longer than two megabytes would not survive its excerpt (`Excerpts.RebuildIsFaithfulIff`), but none
gets there: the machine of the audit maps two megabytes for it (`scripts/audit-mtk-speed-policy.py:22-25`)
before the excerpt is taken. For all others the round trip holds (`Excerpts.ExcerptRoundTrip`).

## Assumptions

They are all visible as parameters or `requires` clauses.

* The disassembler is a parameter. The simulation needs it `Honest` (its bytes are a prefix of the window, and
  it names literal loads and pops of the program counter as the encoding says); the execution of the template
  needs it `Exact` on the modelled halfwords. `ThumbDecoder.DecodeIsExact` shows that such a disassembler exists,
  and `ClassicRelocation` is about that one.
* The processor of the replay machine is a parameter: a state, a program counter, and for each instruction the
  loads it makes and the effect of the loaded values.
* Calls preserve R5, as the comment at `scripts/audit-mtk-uhd-mode-transition.py:83` says.
* A template run may use a RAM address only to load from it. Under that discipline (`LeafSimulation.Track`)
  renaming RAM cells is invisible; both leaves of the shipped template keep it.
* `CollisionFree`: different bytes have different digests; captures have different names.
* An output has the length of its original, as `scripts/firmware_execution/corpus.py:97` asserts.

## Model

| member | source | states |
|---|---|---|
| `Reachability.ReachedIffOnPath` | scripts/firmware_execution/cpu.py:83-108 | the set a finished worklist has visited is exactly the set of nodes at the end of a path from a root |
| `FrameFlow.Expand` | scripts/audit-mtk-uhd-mode-transition.py:98-116 | one instruction pushes exactly the successors of the abstract step and fails exactly when that step does; `StateIsMet` says that no successor is spurious |
| `FrameFlow.Analyse` | scripts/audit-mtk-uhd-mode-transition.py:82-120 | succeeds if and only if the runs of the routine behave: none meets an undecodable address, an R5 write that is no literal load or a local jump without one immediate, they meet at most 4096 places and values, and every run at the site was given the expected base; then returns the number of places and values met; terminates for every image |
| `FrameFlow.OnlyOneFlow` | scripts/audit-mtk-uhd-mode-transition.py:117 | the finished worklist qualifies exactly when the recorded bases are the expected one alone |
| `FrameFlow.RunIsCovered` | scripts/audit-mtk-uhd-mode-transition.py:87-116 | every state of every concrete run is covered by an abstract state that was visited |
| `FrameFlow.FlowIsSound` | scripts/audit-mtk-uhd-mode-transition.py:82-120 | after a successful analysis every run from entry to the site has the expected base in R5, whatever R5 held at entry |
| `FrameFlow.StateIsMet` | scripts/audit-mtk-uhd-mode-transition.py:87-116 | the abstract flow is not too large: each of its states is met by a real run, for every value that R5 may have at entry |
| `FrameFlow.QualifiesIffBehaves` | scripts/audit-mtk-uhd-mode-transition.py:82-120 | the analysis is complete: it refuses only when some run meets something refused, too much is met, or some run has another base at the site |
| `ClassicMapping.Match` | scripts/firmware_execution/classic_mapping.py:46-70 | comparing one pair of instructions succeeds exactly when shape, bytes, literal role and earlier RAM roles agree, and yields exactly the pairs control may go to; `ClassicRelocation.CopyIff` says for the classic template which halfwords these are |
| `ClassicMapping.BindLeaves` | scripts/firmware_execution/classic_mapping.py:27-73 | succeeds if and only if a consistent joint control flow exists that covers the whole template without aliasing, and then returns it and its RAM renaming; terminates for every image |
| `ClassicMapping.OnlyOneMatch` | scripts/firmware_execution/classic_mapping.py:70-71 | a finished consistent search is a match exactly when all template offsets were visited and there are as many RAM values as RAM keys, and no other match exists |
| `ClassicMapping.MatchFails` | scripts/firmware_execution/classic_mapping.py:40-64 | each assertion of the search fails only when no match exists at all |
| `ClassicRelocation.CopyIff` | scripts/firmware_execution/classic_mapping.py:46-69 | a place of the image passes for an offset of the template exactly when it does the same: branches under the same condition to the place of the target, other instructions the same halfword, literal loads into the same register of the word that stands for the template's, and control going on to the place of the next offset |
| `ClassicRelocation.RelocationIsBound` | scripts/firmware_execution/classic_mapping.py:27-73 | completeness up to relocation: copies of all instructions anywhere in the image, one to one, with any one to one renaming of the four RAM words into RAM and all other words kept, are bound to just these places and words |
| `ClassicRelocation.BoundIsRelocated` | scripts/firmware_execution/classic_mapping.py:27-73 | and whatever is bound is such a relocation |
| `ClassicRelocation.BindClassic` | scripts/firmware_execution/classic_mapping.py:27-73 | on the classic template the search returns the one relocation of it that the image holds from both entries, or nothing when there is none |
| `LeafSimulation.PerformKeepsRelated` | scripts/firmware_execution/classic_mapping.py:54-66 | one operation keeps two machines equal up to the renaming of RAM addresses |
| `LeafSimulation.StepSimulated` | scripts/firmware_execution/classic_mapping.py:46-69 | one template instruction is matched by one instruction at the bound source address, which stores nothing and ends at bound addresses again |
| `LeafSimulation.RunSimulated` | scripts/firmware_execution/classic_mapping.py:27-73 | runs of any length from matched addresses stay in lockstep, and the source stores nothing |
| `LeafSimulation.BoundLeavesSimulateTemplate` | scripts/firmware_execution/classic_mapping.py:27-73 | whenever the binding succeeds, every template run from either root is followed by the source image, instruction by instruction, with RAM cells renamed and memory left as it is |
| `ClassicTemplate.OpsAreMeant` | scripts/firmware_execution/classic_mapping_template.json:1-353 | the operation listed for each of the 83 offsets is what its halfword encodes |
| `ClassicWalk.WalkIsStep` | scripts/firmware_execution/classic_mapping_template.json:1-353 | one instruction walked symbolically is one instruction of the template run, in every state it stands for |
| `ClassicWalk.WalkIsRun` | scripts/firmware_execution/classic_mapping_template.json:1-353 | and a walk of any length is a run of that length |
| `ClassicInverse.InverseLeafNormalizes` | scripts/firmware_execution/classic_mapping_template.json:1-353 | for every content of the registers and of the three ends, the walk of the inverse leaf returns the three-boundary map of R0, and changes only R0 to R3 and the flags |
| `ClassicForward.ForwardLeafDenormalizes` | scripts/firmware_execution/classic_mapping_template.json:1-353 | for every content of registers and cells, the walk of the forward leaf returns the inverse map of R0 less the recorded offset and the first physical sector, with R4 to R7, stack and return address restored |
| `ClassicBinding.DenormalizeUndoesNormalize` | scripts/firmware_execution/disc.py:246-259 | on well-formed boundaries the forward map takes the image of a value back to the value less the offset and 0x100000 |
| `ClassicBinding.CellsAreBound` | scripts/firmware_execution/classic_mapping.py:20-23 | the four RAM cells that `bind` looks up are always keys of the renaming of a successful binding |
| `ClassicBinding.LeafRuns` | scripts/firmware_execution/classic_mapping_template.json:1-353 | what the walk of a leaf gives, the template run gives in every state, with all but R0 to R3 and the flags kept |
| `ClassicBinding.ResultIsComputed` | scripts/firmware_execution/classic_mapping.py:27-73 | a result of a template leaf is the result of the source code bound to it, with r4 to r7, stack, link and memory as before |
| `ClassicBinding.BoundInverseNormalizes` | scripts/firmware_execution/classic_mapping.py:15-24 | code accepted as the inverse leaf computes `normalize` of the ends that its own cells hold |
| `ClassicBinding.BoundForwardDenormalizes` | scripts/firmware_execution/classic_mapping.py:15-24 | code accepted as the forward leaf computes the inverse map of its own cells |
| `ClassicInstance.TemplateIsBound` | scripts/firmware_execution/classic_mapping.py:27-73 | every image that carries the template in one piece, with literal pools that rename its cells, is matched by the template, each offset with its own place and each cell with its own name |
| `ClassicInstance.BindingExists` | scripts/firmware_execution/classic_mapping.py:27-73 | for every renaming of the cells such an image exists, so the theorems about bound code are not empty |
| `ThumbDecoder.DecodeIsExact` | scripts/firmware_execution/classic_mapping.py:49-51 | the demands on the disassembler can be met |
| `DiscAudit.LaterEndsDoNotMatterBack` | scripts/firmware_execution/disc.py:238-246 | addresses of the layers a disc has do not depend on the ends of the layers it lacks |
| `DiscAudit.DenormalizeIsReverseLookup` | scripts/firmware_execution/disc.py:238-246 | the forward map takes the table's physical address of every sector back to the sector less the recorded offset |
| `DiscAudit.MapsAgreeWithTable` | scripts/firmware_execution/disc.py:241-251 | the equations of the audit for the two maps hold for every sector of a mirrored disc: from the address the sector less the recorded offset, the sector itself when the offset is zero, and the physical address from sector plus 0x100000 |
| `DiscAudit.InverseLeafLocates` | scripts/firmware_execution/disc.py:250-259 | bound inverse code started with sector plus 0x100000 returns the physical address of the segment table |
| `DiscAudit.ForwardLeafReturns` | scripts/firmware_execution/disc.py:241-246 | bound forward code started with the physical address returns the sector less the offset its record holds; the sector itself, as the audit compares it, when that is zero |
| `RoutedRead.RoutedReadNormalizes` | scripts/firmware_execution/read_value.py:17-55 | the load of the working word, the call of bound inverse code and the store replace the word, whatever it is, by its image under the map of the ends held, and change no other memory |
| `RoutedRead.RoutedReadLocates` | scripts/firmware_execution/disc.py:253-260 | the third equation: on a mirrored disc the working word goes from sector plus 0x100000 to the physical address of the table |
| `RoutedRead.RoutedSiteExists` | scripts/firmware_execution/classic_mapping.py:15-24 | bound code and such a call site exist together in one image, for every renaming of the cells |
| `AddressMap.WrappingIsHarmless` | scripts/firmware_execution/read_value.py:7-14 | on ordered boundaries the 32-bit map is the truncation of the unbounded one, equal to it exactly when that fits 32 bits, and always below the last layer |
| `AddressMap.NormalizeIncreases` | scripts/firmware_execution/read_value.py:7-14 | on well-formed boundaries the map is strictly increasing up to the last value whose image fits |
| `AddressMap.IncreasingEverywhereIff` | scripts/firmware_execution/read_value.py:7-14 | it is increasing over all 32-bit values exactly when the three ends are 0x1ffffff, 0x3ffffff and 0x5ffffff |
| `AddressMap.LastLayerWraps` | scripts/firmware_execution/read_value.py:14 | for all other well-formed ends some value maps to the top address and the next one to zero |
| `AddressMap.LinearUndoesNormalize` | scripts/firmware_execution/read_value.py:7-14 | values of a layer land in that layer's own window and the piecewise inverse takes them back |
| `AddressMap.NormalizeUndoesLinear` | scripts/firmware_execution/read_value.py:7-14 | and every address inside a window is the image of its inverse |
| `AddressMap.CollidesIffWindowsOverlap` | scripts/firmware_execution/read_value.py:7-14 | on ordered boundaries two values of the first layers share an address exactly when two of their windows overlap, for the three layers below the last and for all four as far as images fit |
| `AddressMap.SharedAddressIff` | scripts/firmware_execution/read_value.py:7-14 | over all 32-bit values two share an address exactly when two of the four windows overlap or the last layer wraps around to zero |
| `AddressMap.SampleBoundariesCollide` | scripts/firmware_execution/read_value.py:38-41 | the boundaries of the worker cases are outside the domain: two given values share an address |
| `DiscGeometry.DeriveSegments` | scripts/build-mtk-disc-fixtures.py:57-65 | the loop yields one segment per layer exactly when no layer ends before it starts, and the sectors before each |
| `DiscGeometry.Derive` | scripts/build-mtk-disc-fixtures.py:51-69 | returns a geometry if and only if the bytes record it: the header, the start and the end of each layer, the end cut at the last address of the disc, and segments that tile as many sectors as the capacity says |
| `DiscGeometry.RecordedIsDescribed` | scripts/build-mtk-disc-fixtures.py:51-69 | recorded geometries are accepted and determined by the bytes |
| `DiscGeometry.GeometryTiles` | scripts/build-mtk-disc-fixtures.py:56-67 | the segments of an accepted capture tile the sectors of the disc |
| `DiscGeometry.EverySectorIsHeld` | scripts/firmware_execution/disc.py:239 | the lookup of a segment finds one for every sector below the capacity |
| `DiscGeometry.NormalizeIsTableLookup` | scripts/firmware_execution/disc.py:239-259 | for every sector of a mirrored disc the map of sector plus 0x100000 is the physical address of the table |
| `DiscGeometry.LinearIsReverseLookup` | scripts/firmware_execution/disc.py:239-246 | and the piecewise inverse of that address is sector plus 0x100000 |
| `DiscGeometry.CapturedGeometryMatchesNativeMap` | scripts/build-mtk-disc-fixtures.py:51-69 | from the raw bytes: an accepted capture of a mirrored disc addresses every sector as the native map does |
| `Coverage.Expand` | scripts/firmware_execution/cpu.py:96-108 | one instruction requires exactly its two edges when conditional and queues exactly its successors; `BodyIsMet` says that these are where control can go |
| `Coverage.BranchRequirements` | scripts/firmware_execution/cpu.py:77-110 | succeeds if and only if no run from the root meets an opcode that is refused or undecodable or leaves the bounds; then visits exactly the addresses that runs meet and requires exactly the edges that runs take out of conditionals; terminates for every image |
| `Coverage.BodyIsUnique` | scripts/firmware_execution/cpu.py:83-109 | the visited set does not depend on the order of the queue |
| `Coverage.RequiredMeansOnPath` | scripts/firmware_execution/cpu.py:97-100 | an edge is required exactly when some path from the root ends at its conditional |
| `Coverage.BodyIsMet` | scripts/firmware_execution/cpu.py:83-109 | the walk visits exactly what runs of decoded instructions from the root meet, branch targets and fall-throughs alike |
| `Coverage.WalkableIff` | scripts/firmware_execution/cpu.py:83-109 | and it is refused exactly when some run meets something refused |
| `Coverage.RequiredIsTaken` | scripts/firmware_execution/cpu.py:97-100 | an edge is required exactly when some run takes it out of a conditional, and both of its ends are visited |
| `Coverage.RecordedEdgeIsConsecutive` | scripts/firmware_execution/cpu.py:43-54 | an edge recorded over several starts joins two consecutive instructions of one of them |
| `Coverage.Execution.constructor` | scripts/firmware_execution/cpu.py:25-35 | nothing is recorded at first |
| `Coverage.Execution.Start` | scripts/firmware_execution/cpu.py:43-45 | begins a new run and keeps what was recorded |
| `Coverage.Execution.Step` | scripts/firmware_execution/cpu.py:49-64 | extends the run by one instruction, keeps recorded edges equal to the consecutive pairs of all runs, and refuses exactly the opcodes an ARMv5 core lacks, but for the second half of a call |
| `Coverage.Compare` | scripts/firmware_execution/cpu.py:117-122 | lists as uncovered exactly the required edges and as unvisited exactly the reachable instructions that were not recorded, and counts the others |
| `Coverage.Execution.Missing` | scripts/firmware_execution/cpu.py:112-122 | over any roots, reports exactly when no run from a root meets anything refused; uncovered are exactly the edges that leave a conditional on some run from a root and that no recorded run has as two consecutive instructions, unvisited exactly the addresses met from a root that no recorded run holds, and the covered counts are the sizes of the complements |
| `Coverage.ReportMeans` | scripts/firmware_execution/cpu.py:112-122 | this meaning of the report follows from the comparison of the sets |
| `StageCoverage.Stage.Case` | scripts/firmware_execution/stages.py:117-141 | a failing case keeps its evidence, is not counted and fails the stage for good |
| `StageCoverage.Stage.FinishConversion` | scripts/firmware_execution/stages.py:143-161 | a conversion stage passes exactly when no case raised and runs of the modified image took every edge out of a conditional that runs from the root can take, and every instruction these meet |
| `StageCoverage.CompleteMeansTaken` | scripts/firmware_execution/corpus.py:134-140 | the gate on the report holds exactly when the helper is accepted and fully taken |
| `StageCoverage.ModifiedRunsAreRecorded` | scripts/firmware_execution/stages.py:117-141 | what is recorded of the modified image are exactly the modified runs of the cases, of a compared case the second one |
| `StageCoverage.FullyTakenIff` | scripts/firmware_execution/stages.py:143-161 | full coverage is the taking of every edge and instruction by those runs |
| `StageCoverage.PassedEdgeWasTaken` | scripts/firmware_execution/corpus.py:134-140 | in a passed stage each edge that runs from the root take out of a conditional was taken by two consecutive instructions of the modified run of one case |
| `Replay.LoggedWriteRollsBack` | scripts/firmware_execution/stages.py:54-65 | logging the old bytes keeps the log able to restore, whether or not the new bytes land and whatever they overlap |
| `Replay.RunCanBeUndone` | scripts/firmware_execution/stages.py:40-96 | however a run ended, replaying its log in reverse gives the initial memory |
| `Replay.SeedingHoldsInputs` | scripts/firmware_execution/stages.py:54-59 | the memory after a successful seeding, told of the request and the memory before alone |
| `Replay.CachedMachine.constructor` | scripts/firmware_execution/stages.py:34-37 | a fresh machine remembers what it started from |
| `Replay.CachedMachine.Restore` | scripts/firmware_execution/stages.py:46-48 | memory and processor that an earlier run left behind become the initial ones again, and nothing is recorded |
| `Replay.CachedMachine.SeedInputs` | scripts/firmware_execution/stages.py:54-59 | succeeds exactly when every place of an input is mapped, and then memory holds the inputs: declared memory what its last entry gives, other flag places the last setting made there or 255, and everything else what it held before; each write was logged |
| `Replay.CachedMachine.StoreOutputs` | scripts/firmware_execution/stages.py:64-69 | each store is logged first and guarded second |
| `Replay.CachedMachine.StepOn` | scripts/firmware_execution/stages.py:61-77 | one instruction with all its hooks is one step of the specification |
| `Replay.CachedMachine.EmulateFrom` | scripts/firmware_execution/stages.py:79-80 | the loop ends as the specification does, within the budget of 2000 instructions |
| `Replay.CachedMachine.Run` | scripts/firmware_execution/stages.py:40-96 | whatever ran before, also a run that ended inside a guard, the result, the instructions and the edges equal those of a fresh machine, which `PlainRuns` tells by a plain execution; memory, log and processor are left as that run ends |
| `PlainRuns.InputsDetermineMemory` | scripts/firmware_execution/stages.py:54-59 | the inputs and the memory before determine the memory after seeding |
| `PlainRuns.CaseEndsIff` | scripts/firmware_execution/stages.py:40-96 | how a case ends, for each of the ends: exactly as the execution of a plain processor on memory that holds the inputs, through permitted accesses only, within the budget, with the control bits and the observed ranges tested at the boundary |
| `PlainRuns.CaseReturns` | scripts/firmware_execution/stages.py:88-96 | a case that reaches a boundary returns the processor, the places, the stores, the instructions, the edges and the observed bytes of that execution |
| `StrictReads.StepAlike` | scripts/firmware_execution/stages.py:64-75 | an instruction fetched from flash keeps two runs alike that differ in undeclared memory |
| `StrictReads.StrictRunIgnoresUndeclaredMemory` | scripts/firmware_execution/stages.py:53-96 | with strict reads, initial memories that map the same bytes and agree on flash and the stack window give the same end, registers, writes and trace, and the same observed bytes when those are declared |
| `WriteGuard.RunChangesOnlyWritableMemory` | scripts/firmware_execution/stages.py:54-69 | a run changes no byte outside its inputs, its stack window and its allowed ranges, unless it ends with a refused write that the emulator let land |
| `WriteGuard.RefusedStoreIsLast` | scripts/firmware_execution/stages.py:64-69 | a run that a refused store ended reports that store last and only permitted ones before it; every other run reports permitted stores only |
| `Setter.SetterContract` | scripts/firmware_execution/ake_setter.py:39-63 | returns a contract if and only if the image holds, at the setter, the operations of its shape with its three pool words, and its cells are two different aligned words of RAM |
| `Setter.ShapeIsUnique` | scripts/firmware_execution/ake_setter.py:49-53 | no code fits two of the four sequences, so the order of the search does not matter |
| `Setter.GrammarIsCode` | scripts/firmware_execution/ake_setter.py:39-53 | code that fits a sequence decodes to that sequence's operations, one by one |
| `Setter.FitsIffCode` | scripts/firmware_execution/ake_setter.py:39-53 | and only code with those operations fits |
| `Setter.DestinationIsTheSum` | scripts/firmware_execution/ake_setter.py:69-73 | the chain of truncated additions and shifts of the code comes to the one address formula of the contract |
| `Setter.CodeHasContractEffect` | scripts/firmware_execution/ake_setter.py:39-63 | the code of any shape, for all register and cell contents, stores one byte at the destination when the index is below two and nothing otherwise, within 17 steps |
| `Setter.RecognisedCodeHasContractEffect` | scripts/firmware_execution/ake_setter.py:25-63 | the same for every image and contract that the search returns |
| `Setter.InputsPredictTheStore` | scripts/firmware_execution/ake_setter.py:66-95 | whenever the prepared inputs are accepted, the code stores the state byte at the predicted address, or nothing |
| `Intervals.Merge` | scripts/audit-mtk-allocation.py:37-40 | the in-place merge is the fold of its joining step |
| `Intervals.MergedAll` | scripts/audit-mtk-speed-policy.py:101-106 | merging ordered ranges separates them, keeps exactly the covered points and holds every given range whole |
| `Intervals.CoverageDetermines` | scripts/audit-mtk-allocation.py:37-40 | separated ranges that cover the same points are the same list |
| `Intervals.MergedIsDetermined` | scripts/audit-mtk-speed-policy.py:95-106 | neither repeats nor the order among equal starts change the merge |
| `Intervals.TotalCountsPoints` | scripts/audit-mtk-allocation.py:43 | the summed lengths of separated ranges are the number of points covered |
| `Intervals.Scan` | scripts/firmware_execution/corpus.py:161-166 | one pass finds exactly the maximal runs of marked positions |
| `Intervals.RunsAreUnique` | scripts/firmware_execution/corpus.py:161-166 | those runs are determined by the marks |
| `Allocation.Coverage` | scripts/audit-mtk-allocation.py:23-26 | the ranges of the table's valid entries, or an error exactly when the image is too short for the table |
| `Allocation.CoverageIsListed` | scripts/audit-mtk-allocation.py:23-26 | each switched-on entry with an ordered range inside the image is listed once, in the order of the table |
| `Allocation.HolesOfRunHold` | scripts/audit-mtk-allocation.py:29-36 | floor, cuts, clips and alignment of one run together keep exactly the aligned free stretches |
| `Allocation.MergedIsHoleMap` | scripts/audit-mtk-allocation.py:37-40 | merging the collected holes gives the hole map |
| `Allocation.HoleMapMaps` | scripts/audit-mtk-allocation.py:28-43 | what the hole map says of the bytes and the words of the table alone |
| `Allocation.FreeHoles` | scripts/audit-mtk-allocation.py:21-43 | the report lists the ranges that the table names, in order; its holes are exactly what aligned stretches of 0xFF above 0x9c00, outside the reserved ranges and inside one named range make up, none split; total and largest are those of the holes |
| `Allocation.HoleBytesAreFree` | scripts/audit-mtk-allocation.py:28-36 | every byte of a hole is 0xFF, at or above 0x9c00, outside all reserved ranges and inside a declared range |
| `Allocation.FreeWordsAreInHoles` | scripts/audit-mtk-allocation.py:28-36 | every aligned 0xFF word with these properties lies whole in one hole |
| `Allocation.HoleMapIsUnique` | scripts/audit-mtk-allocation.py:37-40 | the image alone determines the map |
| `Allocation.TotalIsEligibleBytes` | scripts/audit-mtk-allocation.py:43 | the reported total is the number of eligible bytes |
| `Allocation.LargestBoundsFreeStretches` | scripts/audit-mtk-allocation.py:43 | no free stretch is longer than the reported largest hole |
| `ChangedRanges.ChangedRanges` | scripts/firmware_execution/corpus.py:160-166 | the ranges are exactly the maximal runs of differing positions, and their lengths add up to the changed-byte count |
| `ChangedRanges.LengthsSumToCount` | scripts/firmware_execution/corpus.py:160-166 | the two counts of the receipt agree for every pair of images |
| `ChangedRanges.RangesCarryThePatch` | scripts/firmware_execution/corpus.py:160-166 | writing the reported ranges of the output over the original gives the output |
| `ChangedRanges.UnregisteredBytes` | scripts/firmware_execution/corpus.py:176-181 | lists exactly the changed bytes of an area outside the registered spans, and errs exactly when a nonempty area reaches past the image |
| `ChangedRanges.ReviewAreas` | scripts/firmware_execution/corpus.py:173-181 | passes exactly when every area lies in the image with all its changes registered |
| `ChangedRanges.UntouchedAreaIsOriginal` | scripts/firmware_execution/corpus.py:176-181 | a reviewed area that no span overlaps is byte for byte the original |
| `ChangedRanges.ReportedChangesAreRegistered` | scripts/firmware_execution/corpus.py:160-181 | after a passed review, reported changes inside a reviewed area lie in registered spans |
| `Excerpts.ScanPools` | scripts/audit-mtk-speed-policy.py:96-99 | finds the pools of all literal loads in the window, and errs exactly when the window passes the image |
| `Excerpts.WantedCovers` | scripts/audit-mtk-speed-policy.py:95-100 | wanted bytes are exactly the window, the executed instructions and the pools that are read |
| `Excerpts.Excerpt` | scripts/audit-mtk-speed-policy.py:93-107 | the parts are separated, in order, cover exactly the wanted bytes and carry the image's bytes |
| `Excerpts.Rebuild` | scripts/audit-mtk-speed-policy.py:139-144 | the parts are written one after another over the fill |
| `Excerpts.RebuildIsFaithfulIff` | scripts/audit-mtk-speed-policy.py:139-144 | every kept byte comes back and everything else is fill exactly when no part with bytes starts past the fill |
| `Excerpts.ExcerptRoundTrip` | scripts/audit-mtk-speed-policy.py:93-144 | an image of at most two megabytes agrees with its rebuilt excerpt on every wanted byte, and the rest is 0xFF |
| `Detours.DecodeOfEncodeIff` | scripts/test-mt1959-control-field-downstream.py:37-39 | decoding an encoded pair gives the destination exactly when the distance is even and fits 23 signed bits |
| `Detours.Decode` | scripts/test-mt1939-detection.py:37-43 | the decoder of a pair, for all halfwords |
| `Detours.Apply` | scripts/test-mt1959-control-field-downstream.py:31-40 | one candidate whose ranges lie in the image writes exactly its own stub, pair and NOPs and no other byte |
| `Detours.Install` | scripts/test-mt1959-control-field-downstream.py:29-41 | applies the candidates in order and stops at the first that does not match |
| `Detours.InstallSucceedsIff` | scripts/test-mt1959-control-field-downstream.py:29-41 | candidates whose sites and stubs are disjoint and inside the image install exactly when each matches the unpatched image and its stub fits a slot |
| `Detours.InstallKeepsTheRest` | scripts/test-mt1959-control-field-downstream.py:38-40 | the length and every byte outside the sites and the stubs are kept |
| `Detours.InstallPlacesStub` | scripts/test-mt1959-control-field-downstream.py:38 | every stub is whole in its slot after all candidates |
| `Detours.InstallPlacesPair` | scripts/test-mt1959-control-field-downstream.py:39 | every site starts with its own branch pair after all candidates |
| `Detours.InstallPlacesNops` | scripts/test-mt1959-control-field-downstream.py:40 | the rest of every site is whole NOPs |
| `Detours.DetourDecodesIff` | scripts/test-mt1959-control-field-downstream.py:29-41 | in the installed image a site decodes to its own stub exactly when the branch can reach it |
| `Detours.EvenSitesReachTheirStubs` | scripts/test-mt1959-control-field-downstream.py:29-41 | in images of at most four megabytes every even site does |
| `Detours.LengthKeptIff` | scripts/test-mt1959-control-field-downstream.py:40 | one candidate inside the image keeps the length exactly when its site is at most a pair long or of even length |
| `Detours.ShortSiteIsOverrun` | scripts/test-mt1959-control-field-downstream.py:39 | a site shorter than a pair loses the bytes behind it to the pair |
| `Transcript.Pair` | scripts/hil/pioneer_parity.py:39-48 | every request, in order, is paired with the first result behind it when no other request comes in between, and with none otherwise |
| `Transcript.PairingIff` | scripts/hil/pioneer_parity.py:39-48 | the exchanges are the only list that pairs the places of the requests with the places of their results in this way |
| `Transcript.Collapse` | scripts/hil/pioneer_parity.py:49-56 | the loop that overwrites the last entry computes the collapsed list |
| `Transcript.Transcribe` | scripts/hil/pioneer_parity.py:37-56 | a log becomes the summary of the maximal runs of its exchanges |
| `Transcript.RunsAreUnique` | scripts/hil/pioneer_parity.py:49-56 | a sequence has one decomposition into maximal runs |
| `Transcript.CollapsedIsSummary` | scripts/hil/pioneer_parity.py:49-56 | collapsing keeps each maximal run's step and whether it was longer than one |
| `Transcript.SameTranscriptIff` | scripts/hil/pioneer_parity.py:49-56 | two sequences collapse equally exactly when their maximal runs agree step by step and on being longer than one |
| `Transcript.CollapsedHasNoRepeats` | scripts/hil/pioneer_parity.py:52-55 | no two neighbours of a transcript share a step |
| `Transcript.CollapseOfExpansion` | scripts/hil/pioneer_parity.py:49-56 | collapsing the expansion of a transcript gives it back |
| `Transcript.TranscriptsAreExactlyNoRepeats` | scripts/hil/pioneer_parity.py:49-56 | a list of entries is a transcript of something exactly when neighbours differ |
| `BlockStore.Store.constructor` | scripts/build-mtk-disc-fixtures.py:78 | an empty store |
| `BlockStore.Store.Save` | scripts/build-mtk-disc-fixtures.py:79-83 | new bytes are appended under their digest, known digests change nothing, and no block is ever lost |
| `BlockStore.SaveKeepsAddresses` | scripts/build-mtk-disc-fixtures.py:79-83 | every span still names bytes with its digest |
| `BlockStore.SaveKeepsTiles` | scripts/build-mtk-disc-fixtures.py:79-83 | the spans still tile the blob: every byte belongs to exactly one |
| `BlockStore.LoadBlocks` | scripts/firmware_execution/disc.py:106-112 | loads exactly when every span is nonempty, inside the blob and hashes to its key |
| `BlockStore.StoreLoads` | scripts/firmware_execution/disc.py:106-112 | a saved store loads exactly when no empty block was saved, and without collisions each digest gives the bytes saved |
| `Fixtures.CheckCapture` | scripts/firmware_execution/disc.py:116-120 | passes exactly when the recorded geometry is the derived one and all samples are whole sectors of the disc |
| `Fixtures.CheckAssociation` | scripts/firmware_execution/disc.py:127-136 | passes exactly when the compared sectors agree, suffice, are not zero, and all boundaries were sampled |
| `Fixtures.CheckImage` | scripts/firmware_execution/disc.py:122-136 | passes exactly when size, samples and all associations of an image are in order |
| `Fixtures.Load` | scripts/firmware_execution/disc.py:98-137 | the loader succeeds exactly on the manifests that meet all its assertions, and returns the blocks |
| `Collector.CaptureSamples` | scripts/build-mtk-disc-fixtures.py:24-48 | accepts exactly the files of the two formats, and returns of each metadata sector the bytes at its place: behind the table and the sectors of all entries before the first entry that holds it |
| `Collector.StoredIff` | scripts/build-mtk-disc-fixtures.py:28-48 | the place of a sector in the file, from the words of the table |
| `Collector.CollectCapture` | scripts/build-mtk-disc-fixtures.py:85-93 | records a capture exactly when its files are readable, with every block stored and none lost |
| `Collector.Associate` | scripts/build-mtk-disc-fixtures.py:115-121 | associates exactly the images of the capture's size that equal it on enough sectors |
| `Collector.AssociationsAreListed` | scripts/build-mtk-disc-fixtures.py:112-121 | each matched capture gives one association, in the order of the captures |
| `Collector.CollectImage` | scripts/build-mtk-disc-fixtures.py:100-135 | records an image exactly when it is whole sectors, at least 513: sampled are exactly the fixed choice of sectors and those next to the layer starts of the captures it matches, associated once and in order exactly the matched captures |
| `Collector.Collect` | scripts/build-mtk-disc-fixtures.py:72-144 | a manifest and blob are written exactly when all captures are readable and all images collectable, and record each of them |
| `FixtureRoundTrip.CaptureLoadsIff` | scripts/firmware_execution/disc.py:114-121 | a collected capture loads exactly when its samples lie on the disc |
| `FixtureRoundTrip.ImageLoadsIff` | scripts/firmware_execution/disc.py:122-136 | a collected image loads exactly when every capture it matches has a sector behind each layer boundary |
| `FixtureRoundTrip.AcceptedIff` | scripts/build-mtk-disc-fixtures.py:72-144 | a manifest the collector wrote is accepted by the loader exactly when no sector file stores a metadata sector past its disc, and no disc repeated by an image ends in a one-sector layer behind another |
| `FixtureRoundTrip.AmpleDiscsAreAccepted` | scripts/build-mtk-disc-fixtures.py:72-144 | captures of more than 512 sectors with two in every later layer are accepted, whatever the images |
| `RefusedFixtures.OversizedIsRefused` | scripts/firmware_execution/disc.py:114-121 | a collected disc of 100 sectors whose sector file has 513 is refused |
| `RefusedFixtures.LopsidedIsRefused` | scripts/firmware_execution/disc.py:127-136 | a collected disc that ends in a second layer of one sector, with an image equal to it, is refused |
| `RefusedFixtures.CollectOversized` | scripts/build-mtk-disc-fixtures.py:72-144 | collecting that disc succeeds and loading the result fails |
| `RefusedFixtures.CollectLopsided` | scripts/build-mtk-disc-fixtures.py:72-144 | and so with the disc that ends in one sector |
| `FixtureRoundTrip.CaptureComesBack` | scripts/firmware_execution/disc.py:106-121 | loading gives back a capture's structure, capacity and sectors byte for byte |
| `FixtureRoundTrip.ImageComesBack` | scripts/firmware_execution/disc.py:106-125 | and every sampled sector of an image |
| `FixtureRoundTrip.AssociatedSectorsAreEqual` | scripts/build-mtk-disc-fixtures.py:117-121 | compared sectors are equal as bytes in capture and image, and not all zero |
| `Scope.CapabilityPassesIff` | scripts/firmware_execution/scope.py:139-154 | an advertised capability passes exactly when its feature is known and every stage that facts, minimum role and boot demand is present, passed and has cases |
| `Scope.StatusIff` | scripts/firmware_execution/scope.py:145-150 | each of the six statuses is given exactly when the last stages of the demanded names are as it says: one missing, one failed, one not passed or without cases, one with gaps, or none of these |
| `Scope.ReviewGaps` | scripts/firmware_execution/scope.py:59-70 | lists exactly the reviewed and exactly the other gaps of all stages, native stages included, each once and in the order of stages and gaps |
| `Scope.GapsAreListed` | scripts/firmware_execution/scope.py:59-70 | the places of the gaps that a list is made of |
| `Scope.NothingUnreviewedIff` | scripts/firmware_execution/scope.py:59-70 | nothing is left unreviewed exactly when every gap is a reviewed statement whose side condition holds |
| `Scope.GapsAreSorted` | scripts/firmware_execution/scope.py:59-70 | no gap of a stage is lost or listed twice |
| `Scope.Matrix` | scripts/firmware_execution/scope.py:243-250 | one matrix row for each retained input |
| `Scope.Reasons` | scripts/firmware_execution/scope.py:228-253 | returns, in the order of the tests, exactly the reasons that the run or one of its entries warrants |
| `Scope.ReasonsHold` | scripts/firmware_execution/scope.py:228-253 | a reason is in that list exactly when it holds |
| `Scope.WarrantedIff` | scripts/firmware_execution/scope.py:228-253 | what each reason says of the run and of the stages, features and gaps of its entries |
| `Scope.OutputsIff` | scripts/firmware_execution/scope.py:227-232 | as many outputs as inputs means that every input has one |
| `Scope.NoReasonIff` | scripts/firmware_execution/scope.py:228-254 | no reason remains if and only if the command passed, sources are frozen and every input has an output with exactly the five features, each with all demanded stages passed on cases, every gap reviewed, native and conversion demands met |
| `Captures.HasInk` | crates/freemkv-flash-gui/src/gui_gate.rs:252-275 | true exactly when some pixel of the clipped region differs from its first and no pixel before it is missing |
| `Captures.InkIff` | crates/freemkv-flash-gui/src/gui_gate.rs:250-275 | a capture of any length has ink in a region exactly when some stored pixel within reach of the scan differs from the first; bottom-up, rows behind the first are within reach only when that is stored whole |
| `Captures.TopDownInkIff` | crates/freemkv-flash-gui/src/gui_gate.rs:250-275 | over its full region a top-down capture of any length has ink exactly when some stored pixel differs from the first |
| `Captures.BottomUpInkIff` | crates/freemkv-flash-gui/src/gui_gate.rs:250-275 | a bottom-up one exactly when some stored pixel differs from the first of the top row, other rows counting only when the top row is stored whole |
| `Captures.WholeInkIff` | crates/freemkv-flash-gui/src/gui_gate.rs:250-275 | a complete capture has ink exactly when two pixels of the clipped region differ in colour |
| `Captures.ShortPictureWithInk` | crates/freemkv-flash-gui/src/gui_gate.rs:250-275 | one such capture, of two pixels out of four, has ink against the promise of the comment |

## Left out

- LeafSimulation.BoundLeavesSimulateTemplate: speaks of template runs that use RAM addresses only to load from
  the cells, because a template that compared, stored or computed with an address could tell renamed cells apart;
  the shipped template keeps to it on every path, as `ClassicInverse` and `ClassicForward` show.
- ClassicRelocation.BindClassic: is about the disassembler of `ThumbDecoder`; what bound code computes is proved
  for every disassembler that is `Exact`.
- PlainRuns.CaseReturns: tells what a case returns that reaches a boundary; of a case that fails `CaseEndsIff` tells
  the end, `WriteGuard.RefusedStoreIsLast` the stores, and `Replay.FreshRun` the rest.
- RoutedRead.RoutedReadLocates: starts at the load of the working word; the patched code from the start of the
  region to there (`scripts/firmware_execution/disc.py:253`), and a call that goes through an ARM veneer, are
  not modelled.
- StrictReads.StrictRunIgnoresUndeclaredMemory: asks that instructions come from flash, because the read guard
  does not see instruction fetches.
- Capstone and Unicorn. An instruction is a decoded record, a processor step loads before it stores, an
  instruction is fetched as a window of four bytes.
- Conditions that read the N or V flag, and runs of a template that make a call: a modelled run ends there.
  Neither leaf nor setter uses them; `RoutedRead` models the one call of the inverse leaf.
- The stack of a modelled leaf is a list of words, apart from memory.
- Runs that leave the window of `frame_flow`: the program treats them as tail transfers, and so does the model.
- `lru_cache` keeping two machines: the model is one machine, whose runs equal those of a fresh one.
- The ARMv5 opcode check inside the replay machine is a predicate of its processor; `Coverage.Execution.Step`
  models the check itself.
- `unchanged`, the comparison of two results register by register, would only add easy members.
- Pattern scans that locate code in an image (`bind_frame`, `bind_mode_producer`, `bind_geometry`, the search
  for a join in `setter_contract`): lists of constants.
- Hashing, JSON, gzip, subprocesses, process pools, file times and messages. Digests, names and JSON keys are
  numbers or an arbitrary function of the bytes; sorted report lists are sets; schema and file names of the
  manifest are not modelled.
- The order in which sampled sectors are appended to the blob is ascending, and the sectors an association
  compared are a set.
- The two regular expressions of the transcript are a classification of lines, the request pattern first; the
  search for 0xFF runs is a scan.
- `validate_inventory`, `native_row` and `settings_dispatch_proof` only enter the gate as facts; the counts 123
  and 41 are parameters of the gate; each retained input has one result, as line 207 of `scope.py` asserts.
- The sentinel bytes around the predicted store of a setter, and the stack and link checks of
  `execute_setter`.
- Overflow of `i32` sums of region coordinates in `has_ink`; `rgba`, `flatten`, `from_bottom_left` and the
  gate of the GUI.
- `capability_for` and the per-byte oracle tables are easy members.
