# Verification of the SMT out-of-order core and its programs

This project models the parts of the repository whose behaviour is decided by bookkeeping over
many cycles or many recursive calls, and proves what they are for. Registers that are updated at a
clock edge, C arrays that are overwritten, and static variables are class fields or arrays changed
by methods. Each such method is proved against a function or a predicate, and the theorems are
lemmas about those. All sizes are symbolic unless a program fixes them.

| files | models |
|---|---|
| `PriorityEncoder.dfy` | the masked chain of priority encoders used by the free list and the broadcaster |
| `CoreConfig.dfy`, `FreeList.dfy`, `MapTables.dfy` | the SMT free list, the committed map tables and the speculative map tables, register by register |
| `RenameMachine.dfy`, `RenameClock.dfy`, `RenameTheorems.dfy` | the renaming allocator: single-instruction steps, the superscalar clock edge wired as in the core, and the theorems that connect the two over all runs |
| `RenameHistory.dfy`, `MapReady.dfy` | the speculative maps and their ready bits in terms of the instructions alone |
| `RenameReset.dfy`, `RenameException.dfy`, `RenameCycle.dfy` | when the resets of the tables fit together, when an exception keeps the tags in order, and what single cycles do |
| `RenamingDriver.dfy`, `DriverHistory.dfy` | the driver of the reservation-station test bench, and what it sends over whole runs |
| `Broadcaster.dfy` | the broadcaster: channel arbitration and the fairness mask |
| `Memory.dfy` | the tagged pipelined memory (`CACHE_MODE`) |
| `Field17.dfy`, `Transform.dfy`, `DftProgram.dfy` | `dft.c`: multiplication by a number-theoretic transform modulo 17 |
| `KnightTour.dfy`, `BreadthFirst.dfy`, `DepthFirst.dfy`, `MatrixProduct.dfy`, `FiniteSets.dfy` | `backtrack.c`, `bfs.c`, the depth-first search of `graph.c`, `matrix_mult_rec.c` |
| `InstBits.dfy`, `InstWord.dfy`, `InstTable.dfy`, `RiscvInst.dfy` | the RV32IM encoder and decoder of `riscv_inst.h` |

`dafny verify dfyconfig.toml` checks everything.

## Main results

**Renaming.** `ClockIsSequential`: one clock edge of free list, committed maps, speculative maps and
reorder buffer queues, with dispatch, several retirements per thread and rollbacks all in the same
cycle and with a counter of fixed width, produces exactly the state that the instructions produce
one after the other. From it, for every run from reset: every physical tag except 0 is held exactly
once, by a free list entry or by a committed register (`NoTagLostOrDuplicated`); the counter equals
the number of available entries and never wraps (`CounterNeverWraps`); the speculative map is the
committed map with the queued renames replayed, and each rename remembers the tag it overwrites
(`SpeculativeMapIsReplay`). So what the free list assumes of `tag_old` is proved, not assumed. In terms
of the program of a thread alone, the maps name the youngest retired and the youngest dispatched
writer of every register (`MapsNameYoungestWriters`), sources inside a group included
(`SourceNamesYoungestWriter`), and a source is ready exactly if its tag was broadcast after the rename
(`SourceReadyIffAnnounced`). The theorems about runs hold for one thread or 32 registers;
`NoTagLostIff` shows that in all other configurations tags get lost.
`ExceptionSafeIff` says of any state and inputs whether an exception would put the tags out of order.

**Test bench driver.** `EachReadsYoungestWriters`: in every interleaving of dispatch, completion and
retirement the instructions are sent in program order, each with the tags of the youngest earlier
writers of its sources, and overwritten tags are handed out again in program order.

**Broadcaster.** Each granted input has one channel, which carries its own result field by field
(`PosEdge`). With n inputs and c channels, an input that stays valid is passed over in at most
(n-1)/c + (n-2)/c cycles (integer divisions) from any reachable mask (`BoundedWaiting`), and no smaller
bound holds (`BoundIsReached`).

**Memory.** `TraceRefines`: over every trace the scan over the tags refines a delay line, so a load
returns exactly `latency` cycles later, with the data of the last store to its address that was taken
before it (`LoadsReturnOnTime`). `AlwaysTaken` and `SlowMemoryTurnsAway` show that no valid request is
turned away if and only if the latency is below the number of tags.

**Transform.** `Dft` computes the transform for every root and length it is specified for, and for
every array whose innermost sums fit 16 bits. Forward and inverse transform cancel, pointwise products
are cyclic convolutions, and `Mult` returns (x mod 256)(y mod 256) mod 17 for all 16-bit arguments,
without overflow of the 16-bit type.

**Searches.** `SolveKT` finds a knight's tour, with the moves of a knight (`TableIsKnight`), if and
only if one exists; breadth-first search overruns its queue if and only if fewer places are left than
vertices can be reached, and otherwise queues exactly the reachable vertices by increasing distance;
depth-first search pushes exactly the reachable vertices, in depth-first order.

**Matrix product.** In 32-bit arithmetic `multiplyMatrixRec` adds exactly the products that its static
counters have not passed; only counters at zero give the product of all matrices (`ProductIffFresh`).
The inner product is fixed by its laws: rows and columns of the identity pick entries, and it is linear
in both operands.

**Instructions.** `DecodeInvertsSelect` ties the switches of `decode` to the table of `select`;
`EncodeAfterDecode` and `DecodeAfterEncode` are the two round trips, with the exact conditions under
which a word, the types and an immediate survive, for every operation.

## Where the code differs from what one would expect

- The free list takes the thread of a whole dispatch group from channel 0
  (verilog/DP_lsq.sv:412); the fetch queue gives one thread per group
  (verilog/IF.sv:609), which is what `Offered` states.
- Dispatching for a thread that mispredicts in the same cycle would lose a tag.
  `SafeIffNoTagForSquashed` says that the invariant survives such a cycle if and only if no tag is
  taken; the fetch queue offers nothing then (verilog/IF.sv:598-599).
- `exception_i` resets the free list but not the committed maps. By `ExceptionSafeIff` that keeps the
  tags in order if and only if, after the retirements of the cycle, no free list entry holds a tag from
  below the range in which the free list starts. `ExceptionCanDuplicate` reaches, in every
  configuration, a state in which one does.
- The speculative map resets with a shift by 5 where the committed map shifts by the register index
  width (verilog/MT_SS.sv:136). `SameResetsIff`: both resets agree if and only if there are 32 registers
  or one thread. Otherwise `ResetLosesTag` reaches, in two cycles, a state in which a tag has no holder.
- The broadcaster's mask has no reset; the model starts it as all ones, and the waiting bound holds
  from every mask that can follow.
- The retire loop of the test bench driver looks at the queue head without testing for an empty
  queue inside the loop (testbench/RS_tb.sv:274-290). `Retire` reports exactly when that happens, and
  `UnderrunIsReached` gives a run of two tasks that leads there.
- `breadthFirstSearch` never puts `front` and `rear` back, so the queue fills up over repeated
  searches. The method reports an overrun, and does so if and only if fewer places are left than
  vertices can be reached. So the first search never overruns (`FirstSearchFits`), and a second one
  does exactly if the array has fewer than two places per reachable vertex (`SearchTwice`).
- `multiplyMatrixRec` never resets its static counters, and on the way out every frame counts `i` up
  again. A later product with no more rows adds nothing; `ProductIffFresh` shows that only counters
  at their start give the product.
- `encode` does not write bit 31 of a store, so negative store offsets are lost. `select` gives `JAL`
  the immediate type of `LUI`, so only four jump offsets survive encoding (`JumpSurvivesIff`).
  `decode` ignores the third field of `JALR`; the upper immediate is kept unshifted, unlike
  `RV32_signext_Uimm` in ISA.svh.

## Model

| member | source | states |
|---|---|---|
| PriorityEncoder.Encode | verilog/FL_smt.sv:348-360 | the downward loop returns the lowest set bit, and reports whether there is one |
| PriorityEncoder.PeMult | verilog/FL_smt.sv:276-302 | output k of the masked encoder chain is the k-th lowest set bit, valid exactly if there are more than k, and 0 otherwise |
| PriorityEncoder.ChainIsNth | verilog/FL_smt.sv:276-302 | stage i of the chain selects the bit with exactly i set bits below it |
| PriorityEncoder.ChosenAreLowest | verilog/BC.sv:233-259 | a bit is chosen by one of the first m stages exactly if it is set and has fewer than m set bits below it |
| FreeList.FlSmt.constructor | verilog/FL_smt.sv:94-98 | after reset every entry is available and holds the tags that no committed map holds |
| FreeList.FlSmt.FlDp | verilog/FL_smt.sv:222-237 | offered number is the counter clipped to the channels, offered tags are those of the lowest available entries, and of entry 0 on the channels past them |
| FreeList.FlSmt.ThreadTagNum | verilog/FL_smt.sv:175-185 | counts the in-flight entries of a thread |
| FreeList.FlSmt.ThreadRtNum | verilog/FL_smt.sv:188-198 | counts the retirements of a thread that free a tag |
| FreeList.FlSmt.NextAvailNum | verilog/FL_smt.sv:201-211 | the fixed-width sum equals the unbounded one modulo the counter range |
| FreeList.FlSmt.DpSel | verilog/FL_smt.sv:146-169 | an entry is selected exactly if it is available and has fewer than dp_num available entries below it |
| FreeList.FlSmt.PosEdge | verilog/FL_smt.sv:91-135 | every entry after the edge, by reset, rollback, last matching retirement or dispatch; counter as in NextAvail |
| FreeList.CounterIsTight | verilog/FL_smt.sv:37 | the counter's width is the least that holds the number of entries |
| FreeList.ResetStart | verilog/FL_smt.sv:40 | the first free tag follows the tags of all committed registers |
| MapTables.Amt.PosEdge | verilog/AMT.sv:33-49 | each register takes the last matching write of the cycle |
| MapTables.Amt.Out | verilog/AMT.sv:20-31 | the bypassed output is the table, or during rollback the table after the writes of the cycle |
| MapTables.MapTable.Read | verilog/MT_SS.sv:45-93 | tag and ready bit of a source, and tag_old of a destination, after the CDB and the older channels of the group |
| MapTables.MapTable.NextEntry | verilog/MT_SS.sv:103-122 | tag of the newest rename; ready exactly if not renamed, and ready before or broadcast now |
| MapTables.MapTable.PosEdge | verilog/MT_SS.sv:98-148 | tags and ready bits after the edge: reset layout with the fixed shift, rollback to the committed map, or the updated entries |
| MapTables.SameResetsIff | verilog/MT_SS.sv:132-138 | the resets of speculative and committed maps agree in all threads if and only if there are 32 registers or one thread |
| MapTables.ResetTagRange | verilog/AMT.sv:36-40 | the reset layouts of the threads use disjoint ranges of tags |
| RenameMachine.RenameKeeps | verilog/DP_lsq.sv:149-161 | renaming one instruction keeps the invariant: one holder per tag, in-flight entries match the queue, maps replay, counter exact |
| RenameMachine.RetireTouchesOne | verilog/FL_smt.sv:117-125 | a retiring tag matches exactly one in-flight entry of its thread |
| RenameMachine.RetireConserves | verilog/FL_smt.sv:119-123 | the retirement swaps the committed tag and the freed tag, so every tag keeps exactly one holder |
| RenameMachine.RetireKeeps | verilog/AMT.sv:42-46 | retiring one instruction keeps the whole invariant |
| RenameMachine.SquashKeeps | verilog/FL_smt.sv:103-112 | a rollback keeps the whole invariant |
| RenameMachine.TagsDistinct | verilog/FL_smt.sv:49 | tags of different entries differ in every state that satisfies the invariant |
| RenameClock.GroupIs | verilog/DP_lsq.sv:325-349 | a dispatch group in one cycle equals its instructions renamed in order |
| RenameClock.RetireManyIs | verilog/ROB.sv:367-388 | same-cycle retirements, also of one register, equal retiring in order |
| RenameClock.StepsAre | verilog/FL_smt.sv:201-211 | retirements and rollbacks of all threads equal doing them thread by thread |
| RenameTheorems.ClockIsSequential | verilog/FL_smt.sv:91-135 | the superscalar edge of all tables equals the instructions one after the other, and keeps the invariant |
| RenameTheorems.ResetIsSafe | verilog/AMT.sv:35-40 | the reset layouts of free list and maps satisfy the invariant if and only if both map resets agree |
| RenameTheorems.RunKeeps | verilog/FL_smt.sv:91-135 | every state of every allowed run satisfies the invariant |
| RenameTheorems.NoTagLostOrDuplicated | verilog/FL_smt.sv:91-135 | if the map resets agree, in every run each tag except 0 has exactly one holder, and the counter equals the number of available entries |
| RenameTheorems.SpeculativeMapIsReplay | verilog/MT_SS.sv:98-148 | if the map resets agree, in every run the speculative map is the committed map plus the queued renames, and tag_old is the tag each rename overwrites |
| RenameTheorems.CounterNeverWraps | verilog/FL_smt.sv:201-219 | the counter's exact sum stays within its width at every allowed edge |
| RenameHistory.MapsNameYoungestWriters | verilog/MT_SS.sv:98-148 | if the map resets agree, in every run the queue is the thread's unretired program, the committed map names the youngest retired writer of every register, the speculative map the youngest writer, and tag_old the youngest writer before |
| RenameHistory.SourceNamesYoungestWriter | verilog/MT_SS.sv:69-92 | a channel reads the tag of the youngest writer of a register, including the older channels of its group |
| MapReady.ReadyOnceAnnounced | verilog/MT_SS.sv:104-113 | without a rename a register keeps its tag and gets ready exactly when that is broadcast |
| MapReady.ReadyIffAnnounced | verilog/MT_SS.sv:98-123 | after its last rename a register is ready if and only if a later edge broadcast its tag |
| MapReady.SourceReadyIffAnnounced | verilog/MT_SS.sv:45-93 | a source is ready if and only if no older channel renames it and its tag was broadcast after its last rename, this cycle included |
| RenameReset.ResetLosesTag | verilog/MT_SS.sv:132-138 | if the map resets differ, one rename and one retirement leave a tag without a holder |
| RenameReset.NoTagLostIff | verilog/MT_SS.sv:132-138 | all runs from reset keep one holder per tag if and only if the map resets agree |
| RenameCycle.DispatchTakesFresh | verilog/FL_smt.sv:233-237 | each instruction with a destination gets a distinct available entry, which becomes in flight for its thread |
| RenameCycle.DispatchTagsDiffer | verilog/DP_lsq.sv:340-344 | two instructions of a group never share a tag |
| RenameCycle.NewFlightsWereDispatched | verilog/FL_smt.sv:130-133 | only tags that were handed out become in flight |
| RenameCycle.FlightAccount | verilog/FL_smt.sv:116-126 | a thread's in-flight tags change exactly by its own retirements and dispatches, whatever the others do |
| RenameCycle.SquashGivesBack | verilog/FL_smt.sv:100-115 | after a rollback the thread has nothing in flight, its maps agree, and amt_o equals the committed map after the edge |
| RenameCycle.SafeIffNoTagForSquashed | verilog/IF.sv:596-603 | the invariant survives dispatch for a mispredicting thread if and only if no tag is taken |
| RenameException.MapsIffEntries | verilog/FL_smt.sv:94-98 | in a state that satisfies the invariant the committed maps hold the tags of reset if and only if no free list entry does |
| RenameException.ExceptionSafeIff | verilog/FL_smt.sv:94-98 | an exception keeps the invariant if and only if before the edge, counting the cycle's retirements, every free list entry holds a tag of the free list's start range |
| RenameException.ExceptionCanDuplicate | verilog/FL_smt.sv:94-98 | in every configuration one rename and one retirement lead to a tag that an exception duplicates |
| RenamingDriver.Driver.constructor | testbench/RS_tb.sv:123-139 | identity map, remaining tags free, empty queue |
| RenamingDriver.Driver.DispatchInst | testbench/RS_tb.sv:171-204 | what is sent for one instruction, with its type, and the new queue entry and map entry |
| RenamingDriver.Driver.DispatchChannels | testbench/RS_tb.sv:161-204 | channel k sees the map after the k older channels, and the unused channels are cleared |
| RenamingDriver.Driver.Dispatch | testbench/RS_tb.sv:141-205 | dispatches the minimum of request, station, queue and free list space, keeping the invariant |
| RenamingDriver.Driver.Complete | testbench/RS_tb.sv:235-246 | marks every matching queue and map entry, keeping the invariant |
| RenamingDriver.Driver.Retire | testbench/RS_tb.sv:270-293 | retires the longest complete prefix up to the channel count; reads an empty queue exactly if all entries are complete and fewer than the channels |
| RenamingDriver.UnderrunIsReached | testbench/RS_tb.sv:272-293 | with more than one channel, one dispatch and its completion lead to that |
| DriverHistory.EachReadsYoungestWriters | testbench/RS_tb.sv:141-293 | in every run instructions are sent in program order with the tags of the youngest earlier writers of their sources; map and queue name those writers, completed exactly if broadcast since; overwritten tags come back in program order |
| DriverHistory.ChannelReadsYoungestWriters | testbench/RS_tb.sv:161-204 | channel k of a group sends instruction k with tags and ready bits of its sources after all instructions before it |
| RenamingDriver.InitKeeps | testbench/RS_tb.sv:123-139 | the initial state satisfies the invariant |
| RenamingDriver.DispatchOneKeeps | testbench/RS_tb.sv:171-204 | a dispatch moves one tag from the free list into the map and one from the map into the queue |
| RenamingDriver.CompleteOneKeeps | testbench/RS_tb.sv:235-246 | a completion makes ready exactly the entries no incomplete instruction writes |
| RenamingDriver.RetireOneKeeps | testbench/RS_tb.sv:282-285 | a retirement moves the old tag back to the free list |
| RenamingDriver.TagsArePermutation | testbench/RS_tb.sv:141-293 | in every interleaving of dispatch, complete and retire, free list, map and old tags are a permutation of all tags, and an entry is not ready exactly while its writer is incomplete |
| Broadcaster.Bc.constructor | verilog/BC.sv:81-83 | the mask starts as all ones |
| Broadcaster.Bc.PosEdge | verilog/BC.sv:45-104 | exactly the lowest candidates are granted; each has a channel with its own result in every field of CDB and PRF port; idle channels are all zeros; and the mask after the edge |
| Broadcaster.OwnChannel | verilog/BC.sv:86-104 | a candidate is served by one channel only |
| Broadcaster.OrChainIsChosen | verilog/BC.sv:186-201 | the AND-OR chain is set exactly for inputs chosen by some channel |
| Broadcaster.OrBitsIsExists | verilog/BC.sv:152-164 | the OR chain says whether any bit is set |
| Broadcaster.GrantsAreLowest | verilog/BC.sv:52-68 | exactly the lowest min(c, count) unmasked requests are granted |
| Broadcaster.QueuedMeansMore | verilog/BC.sv:70-73 | `queued` holds exactly if there are more unmasked requests than channels |
| Broadcaster.QueuedMaskLosesC | verilog/BC.sv:77-80 | in a queued cycle the mask loses exactly c bits |
| Broadcaster.MaskStep | verilog/BC.sv:77-84 | the mask is never empty and, unless full, has lost at least c bits |
| Broadcaster.PassedOverGetsCloser | verilog/BC.sv:77-84 | each cycle in which a waiting input is passed over lowers its remaining delay |
| Broadcaster.BoundedWaiting | verilog/BC.sv:64-84 | an input that stays valid is passed over in at most (n-1)/c + (n-2)/c cycles, from any reachable mask |
| Broadcaster.BoundIsReached | verilog/BC.sv:64-84 | whenever inputs outnumber channels, 0 < c < n, there is a run that waits exactly that long |
| Broadcaster.CandidateMeansGrant | verilog/BC.sv:64-68 | a cycle grants something exactly if a valid input is unmasked |
| Broadcaster.NoTwoIdleCycles | verilog/BC.sv:77-84 | with a waiting input there are never two cycles without a grant in a row |
| Memory.Mem.constructor | testbench/mem.sv:174-186 | all lines zero, all tags idle |
| Memory.Mem.VisitTag | testbench/mem.sv:58-84 | one turn of the loop: count down, accept, or return |
| Memory.Mem.NegEdge | testbench/mem.sv:50-88 | outputs and registers after the edge, as the scan over all tags |
| Memory.HeadIsLast | testbench/mem.sv:78-83 | at most one tag competes for the bus, the one whose countdown ends |
| Memory.EdgeRefines | testbench/mem.sv:50-88 | an edge of the memory is an edge of a delay line, with equal outputs |
| Memory.TraceRefines | testbench/mem.sv:50-88 | so is every trace from the initial state |
| Memory.LoadsReturnOnTime | testbench/mem.sv:70-83 | the bus carries exactly the load accepted latency cycles before, with its tag and the data of the last store to the same address accepted before it, or 0 if there is none |
| Memory.LinesDiffer | testbench/mem.sv:72-74 | valid requests use the same line if and only if they have the same address |
| Memory.AlwaysTaken | sys_defs.svh:28-37 | with more tags than latency a request is accepted exactly if its command and address are valid |
| Memory.SlowMemoryTurnsAway | testbench/mem.sv:58-62 | otherwise a burst of tags + 1 loads has one turned away |
| Memory.TagsAreNotReused | testbench/mem.sv:62-66 | an outstanding tag is not given again, and response and returned tag of a cycle differ |
| Transform.EvalSplit | test_progs/dft.c:37-41 | a polynomial is its even part plus the variable times its odd part, both at the square |
| Transform.SquareIsRoot | test_progs/dft.c:43-44 | the square of a root with middle power -1 is such a root for half the length, and root is 1 exactly at length 1 |
| Transform.Butterfly | test_progs/dft.c:48-49 | the two butterfly outputs are entries j and j + len/2 of the transform |
| Transform.GeoSum | test_progs/dft.c:17-19 | the powers of a root other than 1 sum to 0 |
| Transform.InverseTransform | test_progs/dft.c:81-85 | transform with r, transform with w and scaling by 1/n is the identity |
| Transform.InverseThenForward | test_progs/dft.c:81-85 | and in the other order |
| Transform.ConvolveIsSum | test_progs/dft.c:77-79 | the convolution entry k is the sum of a[i] b[k-i] with cyclic indices |
| Transform.ConvolutionTheorem | test_progs/dft.c:74-85 | pointwise product of transforms, transformed back and scaled, is the cyclic convolution modulo 17 |
| DftProgram.ModuloM | test_progs/dft.c:21-29 | the loops return the remainder in 0 .. 16, also of negative numbers |
| DftProgram.Dft | test_progs/dft.c:31-54 | the first len entries become sum a[i] root^(ij) mod 17 (a single entry stays as it is), the rest is unchanged, and nothing overflows 16 bits if the innermost sums and differences do not |
| DftProgram.SplitHalves | test_progs/dft.c:37-41 | even and odd entries |
| DftProgram.Combine | test_progs/dft.c:45-51 | the butterfly loop turns transformed halves into the transform |
| DftProgram.ToPoly | test_progs/dft.c:56-67 | the low eight bits, for negative arguments too |
| DftProgram.BitsAtTwo | test_progs/dft.c:56-67 | the bits evaluated at 2 give the argument modulo 2^n |
| DftProgram.RootsFit | test_progs/dft.c:14-19 | 2 and 9 are inverse generators of the eighth roots of unity and 15 is the inverse of 8 |
| DftProgram.MultiplyEntries | test_progs/dft.c:77-79 | entrywise product modulo 17 |
| DftProgram.ScaleAndEvaluate | test_progs/dft.c:82-88 | scales in place and returns the value of the polynomial at 2 |
| DftProgram.Mult | test_progs/dft.c:69-91 | x y mod 17 for 0 <= x, y < 256, and the product of the low bytes for all 16-bit arguments |
| DftProgram.ProductAtTwo | test_progs/dft.c:81-90 | evaluating the scaled inverse transform at 2 multiplies the two numbers |
| DftProgram.ScaledEntriesAreConvolution | test_progs/dft.c:81-85 | the array left behind is the cyclic convolution of the bits |
| KnightTour.IsSafe | test_progs/backtrack.c:20-22 | on the board and unvisited |
| KnightTour.SolveKTUtil | test_progs/backtrack.c:70-89 | 1: the board shows a tour extending the path; 0: no tour extends it and the board is as before |
| KnightTour.TableIsKnight | test_progs/backtrack.c:50-51 | the move table leads from one square to another if and only if a knight's move does |
| KnightTour.SolveKT | test_progs/backtrack.c:39-66 | finds a knight's tour from the corner if and only if there is one, for every board size; the board numbers its squares, and each move is the first of the table that leads to a tour |
| KnightTour.PathFits | test_progs/backtrack.c:72 | no path is longer than the number of squares, which bounds the recursion |
| KnightTour.TourCovers | test_progs/backtrack.c:72-73 | a path of full length visits every square |
| KnightTour.NoTourOnThree | test_progs/backtrack.c:10 | on the 3 by 3 board of the program the answer is 0 |
| BreadthFirst.Graph.constructor | test_progs/bfs.c:23-37 | empty graph and queue |
| BreadthFirst.Graph.Insert | test_progs/bfs.c:41-44 | appends to the queue, other places unchanged |
| BreadthFirst.Graph.RemoveData | test_progs/bfs.c:46-49 | takes the front of the queue |
| BreadthFirst.Graph.AddVertex | test_progs/bfs.c:58-63 | a new unvisited vertex at the end of the list |
| BreadthFirst.Graph.AddEdge | test_progs/bfs.c:66-69 | adds the edge in both directions and no other |
| BreadthFirst.Graph.GetAdjUnvisitedVertex | test_progs/bfs.c:72-81 | the first unvisited neighbour, or -1 if all are visited |
| BreadthFirst.Graph.SearchFrom | test_progs/bfs.c:95-101 | one round of the search keeps distances and completeness of the queue, or stops with the queue full and too few places |
| BreadthFirst.Graph.Discover | test_progs/bfs.c:98-99 | marks and queues a vertex, or reports that the array has no place left |
| BreadthFirst.Graph.BreadthFirstSearch | test_progs/bfs.c:83-109 | overruns the array if and only if fewer places are left than vertices can be reached; otherwise queues each reachable vertex once and no other, by nondecreasing distance, uses one place per vertex, and resets all flags |
| BreadthFirst.Graph.SearchTwice | test_progs/bfs.c:83-109 | a second search overruns if and only if the array has fewer than two places per reachable vertex |
| BreadthFirst.ExploredIsComplete | test_progs/bfs.c:93-103 | when the queue is used up it holds exactly the reachable vertices, each at its shortest distance |
| BreadthFirst.Graph.FirstSearchFits | test_progs/bfs.c:23-26 | on an unused queue the search stays below vertexCount |
| DepthFirst.Searcher.Push | test_progs/graph.c:249-251 | pushes, leaving the rest of the stack |
| DepthFirst.Searcher.Pop | test_progs/graph.c:253-255 | takes the top of the stack |
| DepthFirst.Searcher.SearchStep | test_progs/graph.c:298-305 | pushes an unvisited neighbour of the top, or pops the top if there is none; either way the record of the search stays right |
| DepthFirst.Searcher.DepthFirstSearch | test_progs/graph.c:289-311 | pushes each reachable vertex once and no other, in depth-first order, without overflowing the stack, and resets all flags |
| DepthFirst.SearchIsComplete | test_progs/graph.c:297-306 | with the stack empty exactly the reachable vertices were pushed |
| DepthFirst.SearchIsDepthFirst | test_progs/graph.c:297-306 | if a later vertex is a neighbour of an earlier one that the vertex between them is not, the latter was reached from in between |
| MatrixProduct.Multiplier.constructor | test_progs/matrix_mult_rec.c:24 | counters start at 0 |
| MatrixProduct.Multiplier.MultiplyMatrixRec | test_progs/matrix_mult_rec.c:15-50 | from any counters, adds in 32-bit arithmetic every product they have not passed exactly once, and leaves `i` at row1 plus the number of moves of `j` and `k` |
| MatrixProduct.Multiplier.MultiplyMatrix | test_progs/matrix_mult_rec.c:53-73 | no result for mismatched sizes; from zero counters the inner products in 32-bit arithmetic; else what the counters let through, and zero after an earlier product of as many rows |
| MatrixProduct.DotUnitRow | test_progs/matrix_mult_rec.c:35 | a row of the identity picks out an entry of the other operand |
| MatrixProduct.DotUnitColumn | test_progs/matrix_mult_rec.c:35 | and so does a column |
| MatrixProduct.DotLinearLeft | test_progs/matrix_mult_rec.c:35 | the inner product is additive and homogeneous in the left operand |
| MatrixProduct.DotLinearRight | test_progs/matrix_mult_rec.c:35 | and in the right operand |
| MatrixProduct.ProductIffFresh | test_progs/matrix_mult_rec.c:24-50 | the 32-bit result is the product for all matrices if and only if all counters are 0 |
| RiscvInst.DecodeInvertsSelect | testbench/riscv_inst.h:140-518 | a word decodes to an operation if and only if it has the fixed fields `select` lists for it (third field of JALR excepted), and is INVALID if it has none |
| RiscvInst.Inst.constructor | testbench/riscv_inst.h:111-118 | an invalid record with zero registers and immediate |
| InstWord.KeyIsSum | testbench/riscv_inst.h:341 | joining the two fields of the arithmetic switch is adding them |
| RiscvInst.Inst.Decode | testbench/riscv_inst.h:130-520 | all fields, operation, types and immediate of a word; an unknown opcode leaves the types, and a word without immediate the immediate, as before |
| RiscvInst.Inst.Analyze | testbench/riscv_inst.h:522-586 | registers and the immediate for the type in force; without one the old immediate stays |
| InstWord.AnalyzeI | testbench/riscv_inst.h:538-542 | equals the sign extension RV32_signext_Iimm |
| InstWord.AnalyzeS | testbench/riscv_inst.h:548-552 | equals the sign extension RV32_signext_Simm |
| InstWord.AnalyzeB | testbench/riscv_inst.h:557-563 | equals the sign extension RV32_signext_Bimm |
| InstWord.AnalyzeJ | testbench/riscv_inst.h:575-581 | equals the sign extension RV32_signext_Jimm |
| RiscvInst.Inst.Assign | testbench/riscv_inst.h:597-604 | the record then holds the table entry |
| RiscvInst.Prepare | testbench/riscv_inst.h:597-889 | `assign` of the entry that `select` gives makes a record that `encode` accepts |
| InstTable.OpHasFields | testbench/riscv_inst.h:140-518 | whatever the switches recognise has the fixed fields of the table |
| InstTable.FieldsAreOp | testbench/riscv_inst.h:606-889 | whatever has the fixed fields of a table entry is recognised as that operation |
| InstTable.TypesOfTable | testbench/riscv_inst.h:750-754 | table and `decode` agree on the types of an operation if and only if it is not JAL |
| InstTable.TableShape | testbench/riscv_inst.h:891-958 | every arm of `encode` reads only fields that the table sets, within their width |
| RiscvInst.KnownWords | testbench/riscv_inst.h:130-586 | one word of every format decodes to the operation, registers and immediate that RV32I assigns to it |
| InstWord.ComesBackI | testbench/riscv_inst.h:912 | any I immediate comes back cut to 12 bits and sign-extended |
| InstWord.ComesBackS | testbench/riscv_inst.h:916-923 | any store offset comes back cut to 11 bits |
| InstWord.ComesBackB | testbench/riscv_inst.h:924-928 | any branch offset comes back cut to 13 bits, even, and sign-extended |
| InstWord.ComesBackU | testbench/riscv_inst.h:937 | any upper immediate comes back cut to 20 bits |
| InstWord.ComesBackJ | testbench/riscv_inst.h:939-943 | any jump offset comes back cut to 21 bits, even, and sign-extended |
| InstWord.ImmediateI | testbench/riscv_inst.h:912 | an I immediate survives encoding if and only if it is a sign-extended 12-bit number |
| InstWord.FieldsS | testbench/riscv_inst.h:916-923 | a store offset survives if and only if it is below 2048; the other fields always do |
| InstWord.ImmediateB | testbench/riscv_inst.h:924-928 | a branch offset survives if and only if it is even and a sign-extended 13-bit number |
| InstWord.ImmediateJ | testbench/riscv_inst.h:939-943 | a jump offset survives if and only if it is even and a sign-extended 21-bit number |
| InstWord.ImmediateJal | testbench/riscv_inst.h:937-938 | an offset encoded as an upper immediate and decoded as a jump offset survives if and only if it is 0, 0x22222, 0x44444 or 0x66666 |
| RiscvInst.EncodeAfterDecode | testbench/riscv_inst.h:891-958 | encoding a decoded word gives it back; stores lose bit 31, so they come back if and only if it is clear |
| RiscvInst.DecodeAfterEncode | testbench/riscv_inst.h:891-958 | decoding an encoded table entry gives back operation, registers and instruction type, the immediate type if and only if it is not JAL, and the immediate if and only if it fits |
| RiscvInst.JumpSurvivesIff | testbench/riscv_inst.h:750-754 | the offset of a jump set up from the table comes back if and only if it is one of four |

## Left out

- When tags are broadcast in the core: the completions come from the functional units, so in `MapReady` the
  broadcasts are inputs, and edges with reset or rollback end the sequence.
- The reorder buffer's ring of entries, its head and tail and its completion logic: the renaming model
  keeps each thread's buffer as a queue and lets the environment choose how many entries retire.
- The selection of instructions by reservation station, issue queue and random stimulus in the test
  bench driver: the instructions and the completing tags are parameters.
- Retire: the unknown values that a simulator returns for the head of an empty queue, which the driver's
  loop then puts on its free list; the method stops there and reports it.
- Widths of the memory's countdown and tag registers, its clock delays, unknown data values (modelled as
  `None`) and the branch of mem.sv that `CACHE_MODE` compiles out.
- MultiplyMatrixRec: aliasing of the result with an operand, because the operands are values. Signed
  overflow, which C leaves undefined, wraps around as on RV32.
- Dft: lengths that are not powers of two up to 16, and arrays whose innermost sums or differences
  overflow 16 bits, which `mult` never passes.
- SearchFrom, SearchStep: the ghost parameters name the edges and the vertices found so far; they have no
  counterpart at run time.
- Discover: the write behind the queue array; the method reports it and the search stops.
- The second copy of vertex list, matrix and `getAdjUnvisitedVertex` in graph.c: `DepthFirst` uses the one of
  `BreadthFirst`, which has the same code.
- The breadth-first search of graph.c over linked lists. Its 40-place queue starts again only when it is
  empty, and `enqueue` silently drops a vertex that is already marked visited, so on large graphs which
  vertices are expanded depends on the order of the lists; on its own graph of six vertices nothing is dropped.
- The list sorting and towers exercises of graph.c.
- The names of instructions (`str`), `is_nop`, `sign` and `sign64` of riscv_inst.h.
- The debugging ports, `SD` delays, pipeline control, caches, load/store queue and functional units.
