# A verified model of mpipin

mpipin starts the processes of an MPI job on a node and pins each of them to a
share of the CPUs. The processes meet in a region of shared memory; the last one
to arrive releases the one with the lowest process id, which divides the CPUs
among all ranks; a token then passes through the processes in the order of their
ids, and each takes the next rank and binds itself to the share of that rank. The
CPU sets are bitmaps, and the program carries its own bitmap library.

The project models three layers and proves what they are for.

* **The rendezvous** (`Rendezvous`, `RendezvousRuns`, `RendezvousCpus`,
  `RendezvousFailures`, `PartExecs`, `Partition`, `Choices`, `Errors`).
  `Rendezvous` is a state machine over the intervals in which one process holds the
  lock: attaching to the region, arriving in `pin_process`, resuming after a wait,
  and timing out. `Inv` holds in every reachable state; `RendezvousRuns` derives
  from it what holds over every run and every interleaving, `RendezvousCpus` which
  CPUs a run settles on and hands out, in terms of what the attaching processes bring,
  and `RendezvousFailures` how runs fail. `PartExecs.PartExec` is
  the shared record itself: the slot array, the waiting list threaded through it by
  index, the counters and the CPU sets, updated in place. Its constructor and its
  methods `Attach`, `Arrive`, `Resume` and `TimedOut` are proved to be the steps of
  the state machine and to keep `Inv`, so the theorems about runs are theorems
  about the sequences of their calls. `Partition` is the greedy allocator, and
  `Choices` states which CPUs it takes, and in which order, without its functions.
* **The bitmap library** (`Words`, `Bitops`, `Hweight`, `Ordinals`, `Mapping`,
  `Powers`, `Shifts`, `Ranges`, `Areas`, `Regions`, `RegionAllocator`, `Tokens`,
  `WhiteSpace`, `HexFormat`, `HexTexts`, `ListFormat`, `ListTexts`). Bitmaps are arrays of 64-bit words, updated in place
  with the masks and shifts of the source. `Bits(s, n)` is the set of valid bits,
  `Value(s, n)` the number they represent; every method is proved against sets,
  numbers or texts, and the laws are proved about those.
* **The circular lists** of `list.h` (`Lists`), as a heap of nodes.

Where the code and its comments differ, the model follows the code:

* The worked explanation at `bitmap.c:998-1001` takes positions in `orig`; the code
  takes positions in `relmap`, and so does the description above it.
* `bitmap_remap`, `bitmap_onto` and `bitmap_fold` return at once, with `dst`
  unchanged, when `dst` and the source are the same bitmap.
* `__bitmap_parselist` takes an empty item for the range 0-0. Printing an empty
  bitmap gives an empty text, and parsing that sets bit 0: the list round trip
  holds if and only if the bitmap is not empty.
* Both parsers reject a blank between the first digit of the text and any later
  character, not only one inside an item: "1, 2" is not accepted
  (`ListFormat.BlankAfterComma`). A trailing comma is accepted by both. In the list
  format a second number that is left out counts as 0, so "0-" is accepted.
* White space around a text changes nothing, unless the text ends in a comma: the
  hexadecimal format then rejects it, and the list format sets bit 0 as well
  (`HexTexts.WhiteAround`, `ListTexts.WhiteAround`).
* With `cpus_to_assign` 0 every rank is still assigned one CPU while there are any.
* A position that is not aligned makes `__reg_op` act on other bits than those of the
  region if and only if the region crosses into a word it does not visit
  (`Regions.ActsOnRegion`).
* If a waiter timed out while another process is released, that process would go on to
  wake the next one of an empty list, if and only if the topology can be collected
  (`LateTimeOut`; `ReleasedWhileWaiting` is the shortest run that gets there). If the
  released process itself times out, nobody is left to wake anyone, and ranks have been
  handed out if and only if it was not the first (`RunningTimeOut`). A waiter that leaves
  without having been woken stays listed, and may be handed the token
  (`SpuriousWakeUp`). The runs exclude all three.

## Model

| member | source | states |
|---|---|---|
| `PartExecs.PartExec.constructor` | mpipin.c:1330-1353 | the first process sets up a region that represents the state after the first attachment, with the invariant of the rendezvous |
| `PartExecs.PartExec.AddAllowed` | mpipin.c:1357-1360 | the available set grows by exactly the allowed CPUs below the number of configured CPUs |
| `PartExecs.PartExec.DiscoverCpus` | mpipin.c:1364-1392 | the available set grows by exactly the CPUs that are movable to, not excluded and not yet available |
| `PartExecs.PartExec.SettleCpus` | mpipin.c:1363-1402 | the last attacher adds what it discovers, removes what it excludes, and fixes the quota as the size of the result divided by the number of processes |
| `PartExecs.PartExec.Attach` | mpipin.c:1354-1403 | a later process's attachment is the attaching step of the state machine and keeps the invariant |
| `PartExecs.PartExec.FindSlot` | mpipin.c:813-820 | the slot found is the one after those claimed so far |
| `PartExecs.PartExec.FindPlace` | mpipin.c:837-846 | walking the links from the first slot terminates at the first listed process with a greater id and returns the slot before it |
| `PartExecs.PartExec.Enter` | mpipin.c:813-863 | claiming a slot and linking it in leaves an acyclic list of slots that holds the old queue with the process inserted in the order of ids |
| `PartExecs.PartExec.WakeNext` | mpipin.c:1087-1094 | the slot popped is that of the first process of the queue; its ready flag is set, and the links describe the rest of the queue |
| `PartExecs.PartExec.WakeHead` | mpipin.c:867-880 | the last arrival releases the process with the lowest id and resets counter and rank |
| `PartExecs.PartExec.TellWaiters` | mpipin.c:902-918 | the loop ends with an empty list, and exactly the listed slots but the caller's have both flags set |
| `PartExecs.PartExec.AbortWaiters` | mpipin.c:898-925 | aborting empties the queue, tells every listed process but the caller of the timeout, resets the process count, and the caller fails with the timeout error |
| `PartExecs.PartExec.PartitionCpus` | mpipin.c:970-1072 | the affinities committed and the CPUs left over are those of `Divide`, up to the rank at which the topology does not suffice |
| `PartExecs.PartExec.TakeNextRank` | mpipin.c:1077-1115 | the process returns the current rank and is bound to its share, after waking the next one or ending the round |
| `PartExecs.PartExec.Continue` | mpipin.c:947-1115 | what a released process does, with the two failures of the partitioning process, is `Proceed` |
| `PartExecs.PartExec.Arrive` | mpipin.c:788-1121 | entering `pin_process` is the arriving step of the state machine, with the outcome (blocked in which slot, failed, or rank and CPUs) that the state records, and keeps the invariant |
| `PartExecs.PartExec.Resume` | mpipin.c:927-1121 | waking up, for whatever reason, is the resuming step, with the outcome that the state records; after a wake-up by another process the invariant holds |
| `PartExecs.PartExec.TimedOut` | mpipin.c:896-925 | a timed-out wait is the aborting step and fails with the timeout error |
| `Rendezvous.StepKeepsInv` | mpipin.c:778-1121 | every enabled step keeps the invariant over queue, counters, fates, shares and CPU sets |
| `Rendezvous.RunKeepsInv` | mpipin.c:778-1121 | the invariant holds in every state of every run |
| `Rendezvous.InsertSorted` | mpipin.c:836-863 | insertion keeps the queue strictly ascending and adds exactly the new process |
| `Rendezvous.AttachKeepsInv` | mpipin.c:1330-1403 | attaching keeps the invariant; in particular the quota is that of the settled set once the last process attached |
| `Rendezvous.TakeRankKeepsInv` | mpipin.c:1077-1115 | passing the token on and taking a rank keeps the invariant: the next process released is the next in the order of ids |
| `Rendezvous.AbortKeepsInv` | mpipin.c:899-925 | aborting while nobody has a rank or is about to get one keeps the invariant |
| `RendezvousRuns.RankIsPidOrder` | mpipin.c:826-863 | a process that returns a rank returns the number of participants with a smaller process id |
| `RendezvousRuns.RanksAreABijection` | mpipin.c:1077-1115 | at the end of a round every rank below ppn is returned by exactly one process, and every participant has one |
| `RendezvousRuns.OneReleased` | mpipin.c:867-879 | at most one process is released and has not yet returned |
| `RendezvousRuns.TokenHasSuccessor` | mpipin.c:1086-1094 | whenever a released process has to wake the next one, the list is not empty and its first process has a greater id |
| `RendezvousRuns.KnownPartitions` | mpipin.c:970-1070 | if the topology is collected and has an entry for every CPU the last attacher settled, partitioning completes, whatever the quota |
| `RendezvousRuns.FaultFreeOnTrack` | mpipin.c:788-1121 | without timeouts and with such a topology, a run never leaves gathering, releasing or finished |
| `RendezvousRuns.OnlyResumption` | mpipin.c:867-1115 | while a process is released, nothing but its resumption can happen |
| `RendezvousRuns.RoundFinishes` | mpipin.c:947-1115 | in such a run, once all have joined, as many steps as processes are left end the round |
| `RendezvousRuns.RoundCanFinish` | mpipin.c:947-1115 | and every such run that ends earlier can be continued to the end of the round: nobody gets stuck |
| `RendezvousRuns.RankPersists` | mpipin.c:1114-1121 | what a process has returned never changes afterwards |
| `RendezvousRuns.AbortedForGood` | mpipin.c:899-925 | after an abort every later state of the run is aborted, whatever late arrivals do to the counter |
| `RendezvousRuns.TimeOutLeavesNoRank` | mpipin.c:893-933 | if any process times out in a run, no process returns a rank in that run, before or after |
| `RendezvousRuns.NoTopologyNoRank` | mpipin.c:950-957 | if the topology cannot be collected or does not suffice, no process ever returns a rank |
| `RendezvousFailures.TimeOutFailsAll` | mpipin.c:898-933 | a timeout fails the process that times out and every listed waiter: in every later state of the run each has returned the timeout error or has been told to, and is no longer listed |
| `RendezvousFailures.NoTopologyFailsAll` | mpipin.c:950-957 | without a topology, once everyone has joined and the partitioning process has run, whether it was woken or the last to arrive, every participant fails likewise in every later state |
| `RendezvousFailures.HeadFailsAll` | mpipin.c:950-957 | in particular the resumption of the released process fails every participant for good |
| `RendezvousFailures.ToldOfTimeout` | mpipin.c:927-933 | a process that has been told can resume and then returns the timeout error |
| `RendezvousFailures.StuckUntilTimeOut` | mpipin.c:999-1004 | when the topology does not suffice, all that can still happen is that a listed waiter times out |
| `RendezvousFailures.LateTimeOut` | mpipin.c:947-1090 | if a waiter times out while another process is released, that process goes past the partitioning to wake the first of an empty list, if and only if the topology is collected |
| `RendezvousFailures.LateTimeOutWithoutTopology` | mpipin.c:950-957 | otherwise it can resume, and aborts as well |
| `RendezvousFailures.RunningTimeOut` | mpipin.c:893-925 | if the released process itself times out, every participant has returned or has been told, and none has a rank if and only if it was the first |
| `RendezvousFailures.ReleasedWhileWaiting` | mpipin.c:788-895 | with two processes, a run of four steps in which the first is released while the second waits |
| `RendezvousFailures.UnwokenStaysListed` | mpipin.c:935-941 | a waiter that leaves unwoken returns the invalid-argument error and stays in the list |
| `RendezvousFailures.SpuriousWakeUp` | mpipin.c:935-941 | if it is the first in the list while a process is released, that process passes the token to it, who has left, if and only if partitioning completes |
| `RendezvousFailures.MismatchFails` | mpipin.c:799-805 | a process that names another number of processes fails with the invalid-argument error and changes nothing else |
| `RendezvousFailures.ArrivalCounts` | mpipin.c:799-807 | a process is counted in if and only if it names the right number |
| `RendezvousFailures.MismatchForGood` | mpipin.c:799-805 | after such a mismatch the process has failed in every later state and is never counted in |
| `RendezvousFailures.StuckHead` | mpipin.c:1001-1005 | when partitioning fails, the process that partitioned has returned the invalid-argument error and every other one still waits |
| `RendezvousRuns.BoundToShare` | mpipin.c:1098-1099 | a process with a rank is bound to that rank's share of the set the last attacher settled, the quota being that set's size divided by ppn; all ppn processes have attached |
| `RendezvousRuns.BoundWithinAllowed` | mpipin.c:1352-1402 | no process is bound to a CPU outside the allowed and discovered CPUs, nor to an excluded one |
| `RendezvousRuns.BoundNotExcluded` | mpipin.c:1352-1402 | for every attachment that is the ppn-th of the run, no process with a rank is ever bound to a CPU in its exclude list |
| `RendezvousRuns.SharesAreExact` | mpipin.c:970-1070 | different processes are bound to disjoint sets, and with a quota of at least one each has exactly the quota |
| `RendezvousRuns.SharesWhenScarce` | mpipin.c:977-986 | with fewer CPUs than processes the ranks below their number get one each; a process is bound to the empty set if and only if its rank is not below the number of CPUs |
| `RendezvousRuns.SharesAreLocal` | mpipin.c:977-1064 | if caches stay within nodes and each node's free count is a multiple of the quota, each process is bound to CPUs of one node |
| `RendezvousRuns.LastAttacherDecides` | mpipin.c:1362-1402 | in every later state the exclude list, the union of allowed CPUs and the discovered CPUs are those of the ppn-th attacher |
| `RendezvousCpus.OfferedIsBrought` | mpipin.c:1330-1360 | in every state of every run a CPU is on offer if and only if some attachment so far brought it: the first attacher any CPU it may use, each later one those below the number of configured CPUs |
| `RendezvousCpus.DiscoverMembers` | mpipin.c:1364-1392 | a CPU is discovered if and only if it is configured, can be moved to, is not excluded and not yet available |
| `RendezvousCpus.SettledSet` | mpipin.c:1330-1402 | from the ppn-th attachment on, all processes start from exactly the CPUs that some attachment brought or that the ppn-th process can move to, but for the configured ones it excludes |
| `RendezvousCpus.FreeCpus` | mpipin.c:970-1085 | in every state of a round the free CPUs are the settled ones before the first rank, then the settled ones in no share, and none at the end |
| `RendezvousCpus.BoundInOrder` | mpipin.c:970-1115 | the CPUs a process is bound to are those taken one after another, each as the one before it demands, from what the ranks before it leave |
| `Partition.NextCpuIsFindNextBit` | mpipin.c:77-81 | on the words of a CPU set, the next CPU is the result `find_next_bit` is specified to return |
| `Partition.FindTopology` | mpipin.c:991-997 | the entry found is the first one for the CPU |
| `Partition.FindInCaches` | mpipin.c:1008-1022 | the nested loops choose what `CacheChoice` says |
| `Partition.CacheChoiceFree` | mpipin.c:1008-1022 | the CPU chosen by cache is the least free one of the innermost cache that has a free CPU; none is chosen only if no cache has one |
| `Partition.FindOnNode` | mpipin.c:1024-1052 | the loop over free CPUs chooses what `NodeChoice` says, including the failure on a CPU without an entry |
| `Partition.NodeChoiceFree` | mpipin.c:1024-1052 | the CPU found is the least free one on the node, every free CPU before it having an entry; not found means no free CPU on the node; failure means that a free CPU without an entry comes first |
| `Partition.ChooseNext` | mpipin.c:987-1060 | one round of the inner loop chooses what `Choice` says |
| `Partition.ChoiceIsFree` | mpipin.c:987-1060 | whatever is chosen is free as long as any CPU is |
| `Partition.AssignShare` | mpipin.c:974-1064 | the share assembled for one rank is that of `ShareOf` |
| `Partition.TakeMoves` | mpipin.c:980-1064 | CPUs only move from the free set to the share: the two are disjoint and their union is constant |
| `Partition.TakeCounts` | mpipin.c:986-1064 | a share has as many CPUs as assignments made, or all that were free |
| `Partition.DivideConserves` | mpipin.c:970-1070 | the shares are pairwise disjoint subsets of the initial set, and the CPUs left are exactly that set minus their union |
| `Partition.DivideCounts` | mpipin.c:970-1070 | with n times the quota CPUs, each of the n shares has exactly the quota |
| `Partition.DivideSingles` | mpipin.c:977-986 | with a quota of 0 or 1, partitioning completes and each rank gets one CPU while there are any, and none afterwards |
| `Partition.DivideSucceeds` | mpipin.c:970-1070 | if every free CPU has a topology entry and there are enough CPUs, partitioning completes |
| `Partition.ChoiceStaysOnNode` | mpipin.c:1008-1060 | if caches stay within nodes, a process leaves a node only when no CPU of the node is free |
| `Partition.DivideLocal` | mpipin.c:970-1064 | if each node's free count is a multiple of the quota, every share lies on one node |
| `Choices.LookupIsFirst` | mpipin.c:991-997 | the entry of a CPU is the first one with its id, and there is none if and only if no entry has the id |
| `Choices.ChoiceCases` | mpipin.c:987-1060 | the next CPU is the least free one of the innermost cache of the last CPU that has a free one; if none has, the least free one of its node, every free CPU before it having an entry; if the node has none, the least free one of all; it fails if and only if an entry is missing on that path |
| `Choices.OneComesAfter` | mpipin.c:987-1060 | those conditions leave one CPU only |
| `Choices.ShareInOrder` | mpipin.c:977-1064 | a share consists of as many CPUs as the quota, at least one, each the one that comes after the CPU taken just before it |
| `Choices.OneOrder` | mpipin.c:977-1064 | the order in which CPUs are taken is determined by the free set and the topology |
| `Choices.ShareFails` | mpipin.c:1001-1005 | a share fails only when, after the first or some more of its CPUs, nothing can be taken after the last one |
| `Choices.SharesInTurn` | mpipin.c:970-1070 | each rank takes its share from what the ranks before it leave |
| `Choices.ShareOfRank` | mpipin.c:970-1070 | the share of every rank, in the order its CPUs are taken, whether or not later ranks succeed |
| `Choices.DivisionFails` | mpipin.c:970-1070 | partitioning fails only at a rank whose share is cut short by a CPU after which nothing can be taken |
| `Words.Ffs` | include/arch/aarch64/arch-bitops.h:60-90 | the narrowing search finds the lowest set bit; on 0 it returns 63 |
| `Words.Fls` | include/arch/aarch64/arch-bitops.h:30-57 | the narrowing search on 32 bits finds one more than the highest set bit, and 0 on 0 |
| `Bitops.SetBit` | include/arch/aarch64/arch-bitops.h:6-12 | exactly the bit named becomes set |
| `Bitops.ClearBit` | include/arch/aarch64/arch-bitops.h:14-20 | exactly the bit named becomes clear |
| `Bitops.TestBit` | include/bitops.h:29-33 | the test through 32-bit units sees the bit of the 64-bit words |
| `Bitops.BitmapZero` | include/bitmap.h:159-167 | every bit of the words of the bitmap is cleared, and no other word changes |
| `Bitops.FindNextBit` | bitops.c:8-49 | the result is the least set bit at or after the offset and below the size, else the size, for every offset and size |
| `Bitops.FindNextZeroBit` | bitops.c:51-91 | likewise for clear bits |
| `Bitops.FindFirstBit` | bitops.c:93-117 | the least set bit below the size, else the size |
| `Bitops.FindFirstZeroBit` | bitops.c:119-140 | the least clear bit below the size, else the size |
| `Bitops.ForEachSetBit` | include/bitops.h:10-13 | the iteration visits each set bit below the size once, in ascending order |
| `Hweight.HWeight64IsCount` | bitops.c:188-195 | the branch-free folding counts the set bits of every 64-bit word |
| `Hweight.MultiplyIsCount` | bitops.c:182-187 | so does the multiplying form |
| `Hweight.HWeight32IsCount` | bitops.c:149-163 | the 32-bit forms count the set bits of every 32-bit word, and agree |
| `Hweight.HWeight16IsCount` | bitops.c:165-171 | the 16-bit form counts the low 16 bits, whatever the higher bits hold |
| `Hweight.HWeight8IsCount` | bitops.c:173-178 | the 8-bit form counts the low 8 bits, whatever the higher bits hold |
| `Mapping.BitmapWeight` | bitmap.c:284-295 | the weight is the number of valid bits, whatever the unused bits of the last word hold |
| `Mapping.PosToOrd` | bitmap.c:740-756 | the loop over set bits computes the ordinal of a set position, and -1 for any other |
| `Mapping.OrdToPos` | bitmap.c:776-792 | the loop computes the position of an ordinal, and 0 for one out of range |
| `Ordinals.PositionOfOrdinal` | bitmap.c:722-756 | the position of the ordinal of a set position is that position |
| `Ordinals.OrdinalOfPosition` | bitmap.c:758-792 | the ordinal of the position of an ordinal below the weight is that ordinal |
| `Ordinals.OrdinalOutside` | bitmap.c:740-744 | a position has no ordinal if and only if it is negative or not in the set |
| `Ordinals.OrdinalIncreasing` | bitmap.c:740-756 | among set positions, ordinals order as positions do |
| `Ordinals.PositionIncreasing` | bitmap.c:776-792 | among ordinals below the weight, positions order as ordinals do |
| `Mapping.BitmapBitRemap` | bitmap.c:874-883 | one bit is mapped to the bit of `new` with the same ordinal modulo the weight of `new`; bits outside `old`, and all bits if `new` is empty, stay |
| `Mapping.BitmapRemap` | bitmap.c:826-845 | the result is exactly the image of the source under the mapping of single bits; a map that is the destination counts as empty, because it is cleared first |
| `Mapping.RemapIdentity` | bitmap.c:836-842 | with an empty map every bit stays where it is |
| `Mapping.RemapBitWraps` | bitmap.c:838-846 | with a non-empty new map each bit of the old map goes to a bit of the new map, the one whose ordinal is the remainder of its own by the weight of the new map |
| `Mapping.RemapIntoNew` | bitmap.c:834-846 | so a source within the old map sets no bits but those of the new map |
| `Mapping.RemapMembers` | bitmap.c:834-846 | and a bit of the new map is set if and only if a source bit has its ordinal up to that weight |
| `Mapping.RemapRoundTrip` | bitmap.c:794-845 | for old and new of equal weight and a source within old, remapping there and back restores the source |
| `Mapping.RemapWeight` | bitmap.c:794-845 | such a remapping preserves the weight |
| `Mapping.BitmapOnto` | bitmap.c:986-1012 | the single pass sets bit n if and only if n is in relmap and its ordinal is in orig; a relmap that is the destination counts as empty |
| `Mapping.OntoByOrdinals` | bitmap.c:886-985 | that is the set of positions in relmap of the ordinals in orig |
| `Mapping.OntoWeight` | bitmap.c:886-985 | mapping onto a large enough relmap preserves the weight |
| `Mapping.BitmapFold` | bitmap.c:1026-1037 | the result is the set of the source's bits modulo the size |
| `Mapping.FoldedMembers` | bitmap.c:1018-1037 | bit m of the folded bitmap is set if and only if m is below the size and a bit a multiple of the size above m is set |
| `Mapping.FoldThenOnto` | bitmap.c:970-985 | after folding by the weight of relmap, mapping onto it preserves the weight, and the result is empty only if the source is |
| `Shifts.ShiftRight` | bitmap.c:133-162 | bit i of the result is bit i+shift of the source among the valid bits, else 0, also in place; unused bits become 0 |
| `Shifts.ShiftLeft` | bitmap.c:178-203 | bit i of the result is bit i-shift of the source, 0 below the shift, also in place; unused bits become 0 |
| `Shifts.RightDivides` | bitmap.c:118-162 | a right shift divides the number by a power of two, and leaves no unused bit set |
| `Shifts.LeftMultiplies` | bitmap.c:165-203 | a left shift multiplies the number by a power of two modulo the length, and leaves no unused bit set |
| `Shifts.LeftThenRight` | bitmap.c:118-203 | shifting left and back restores the bits that were not shifted out |
| `Ranges.BitmapSet` | bitmap.c:298-317 | exactly the bits of the range become set, every other bit of the array is as before |
| `Ranges.BitmapClear` | bitmap.c:319-337 | exactly the bits of the range become clear |
| `Areas.FindNextZeroArea` | bitmap.c:352-374 | the result is the least aligned index at or after the start whose bits are all clear and fit; it is beyond the size exactly when there is none; a request of no bits gives the first clear bit, aligned |
| `Areas.AlignMaskIsLeast` | include/bitops.h:49-50 | aligning gives the least multiple that is not smaller |
| `Areas.AndNotMaskRoundsDown` | include/bitops.h:49 | clearing the mask's bits of a word rounds its number down to a multiple |
| `Regions.ApplyRegOp` | bitmap.c:1064-1115 | testing, setting and clearing act, in each word visited, on exactly the bits that the mask shows, for every position |
| `Regions.ActsOnRegion` | bitmap.c:1050-1083 | these are exactly the bits of the region if and only if its first word holds it or it starts at a word boundary |
| `Regions.AlignedIsStraight` | bitmap.c:1050-1052 | which is so for every aligned region |
| `Regions.SizeDoubles` | bitmap.c:1050-1052 | a region of order 0 is one bit, and each order doubles the size |
| `RegionAllocator.FindFreeRegion` | bitmap.c:1131-1142 | the lowest aligned free region of the order is taken and returned; an error means there is none, and changes nothing |
| `RegionAllocator.AllocateRegion` | bitmap.c:1173-1179 | if all bits acted on are clear they are set, otherwise the call fails and nothing changes; on an aligned region that is taking a free region |
| `RegionAllocator.ReleaseRegion` | bitmap.c:1156-1159 | exactly the bits acted on are cleared; on an aligned region these are its bits |
| `RegionAllocator.RunConsistent` | bitmap.c:1039-1179 | over every run of the three calls from an empty bitmap, live regions are pairwise disjoint and the set bits are exactly their union |
| `RegionAllocator.ReleaseUndoesFind` | bitmap.c:1131-1159 | releasing the region just found restores bitmap and live regions |
| `HexFormat.ParseHex` | bitmap.c:447-508 | parsing succeeds if and only if the text is accepted, and then the bitmap's number is the base-2^32 numeral of the text; in a text without embedded blanks the first item that does not fit decides the error: overflow if and only if it has more than 32 bits or makes the number too long |
| `HexFormat.OneError` | bitmap.c:447-508 | never are both errors due, and none if everything fits |
| `HexFormat.ReadChunk` | bitmap.c:455-489 | the inner loop reads one item, with its value, or fails for the reason returned |
| `HexFormat.LengthFits` | bitmap.c:497-500 | the tracked length exceeds the size exactly when the number does not fit |
| `HexFormat.ChunkValue` | bitmap.c:494-495 | shifting left by 32 and adding a chunk appends a base-2^32 digit, if the result fits |
| `HexFormat.ScnPrintf` | bitmap.c:397-429 | the text is, for the bitmap's 32-bit chunks from the highest down, the chunk's number in lower-case hex with leading zeros to a digit for every four bits, separated by commas |
| `HexFormat.HexDigitsNumber` | bitmap.c:423-424 | the digits printed denote the number, if the width suffices |
| `HexFormat.PrintedIsAccepted` | bitmap.c:397-508 | the text printed is accepted, with the bitmap's number as its numeral |
| `HexFormat.TextDeterminesBitmap` | bitmap.c:397-429 | two bitmaps print the same text if and only if they have the same valid bits |
| `HexFormat.PrintThenParse` | bitmap.c:397-508 | printing and then parsing succeeds and restores the valid bits, for every bitmap of at least one bit |
| `HexTexts.HexToBinMeans` | bitmap.c:28-36 | the digits 0-9, a-f and A-F read as their values and anything else as -1; values print in lower case |
| `HexTexts.PrintedLooks` | bitmap.c:412-429 | the printed text of n bits has (n+3)/4 + (n-1)/32 characters; from the right, every ninth is a comma and every other one the digit of the next four bits |
| `HexTexts.FittingItemMeans` | bitmap.c:470-490 | an item is acceptable if and only if it consists of hex digits, not none, and at most eight after leading zeros |
| `HexTexts.NumberMeans` | bitmap.c:480-500 | a text that is one number is accepted if and only if the number has at most the bitmap's bits and 32, and else overflows |
| `HexTexts.NothingMeans` | bitmap.c:490-491 | the empty text is malformed |
| `HexTexts.WhiteAround` | bitmap.c:461-474 | white space around a text (blank, tab, newline, vertical tab, form feed, return) changes neither acceptance nor the items, except that white space after a final comma makes the text unacceptable |
| `HexTexts.PrintedLineIsAccepted` | bitmap.c:397-508 | the printed text with white space around it is accepted and denotes the bitmap |
| `HexTexts.NewlineAfter` | bitmap.c:397-508 | in particular the printed text followed by a newline |
| `ListFormat.ParseList` | bitmap.c:617-680 | parsing succeeds if and only if every item is empty, a number or an ascending range (its second number 0 if left out) within the size and no blank comes between the first digit of the text and a later character; the bits are then the union of the ranges; in a text without such blanks the first item that does not fit decides the error: range if and only if it is a range that ends beyond the size |
| `ListFormat.OneError` | bitmap.c:617-680 | never are both errors due, and none if every item fits |
| `ListFormat.BlankAfterComma` | bitmap.c:642-646 | a list with a blank after its comma is rejected, for every size |
| `ListFormat.ReadItem` | bitmap.c:632-668 | the inner loop reads one item as a range, or fails because the item or its blanks are malformed |
| `ListFormat.NumberOfDecimal` | bitmap.c:659 | the digits printed for a number below 2^32 read back as that number |
| `ListFormat.Emit` | bitmap.c:544-553 | one range is appended, with a separator if it is not the first |
| `ListFormat.ScnListPrintf` | bitmap.c:571-595 | the ranges printed are exactly the maximal runs of the bitmap, ascending |
| `ListFormat.RunsUnique` | bitmap.c:555-570 | a set has only one sequence of maximal runs |
| `ListFormat.RoundTrip` | bitmap.c:571-680 | the text printed is accepted, and denotes the bitmap if and only if the bitmap is not empty |
| `ListFormat.EmptyTextIsBitZero` | bitmap.c:630-677 | the empty text is accepted and denotes bit 0 |
| `ListFormat.TextDeterminesBitmap` | bitmap.c:555-595 | two bitmaps print the same text if and only if they are equal |
| `ListFormat.PrintThenParse` | bitmap.c:571-680 | printing and then parsing succeeds, and restores the bitmap if and only if it is not empty; an empty one becomes bit 0 |
| `ListTexts.NumberAppend` | bitmap.c:659 | a digit appended to a number multiplies it by ten and adds the digit, modulo 2^32 |
| `ListTexts.DecimalIsShort` | bitmap.c:549-551 | numbers are printed without leading zeros |
| `ListTexts.GoodItemMeans` | bitmap.c:632-663 | an item is well formed if and only if it is all digits, or at least one digit, a hyphen and digits; its range is then given by its numbers |
| `ListTexts.RangeMeans` | bitmap.c:632-677 | the text of a single range is accepted if and only if it ascends and ends within the size, and then sets its bits; the range error is due if and only if it ascends but ends beyond, the other one if and only if it descends |
| `ListTexts.PrintedItems` | bitmap.c:544-553 | the item printed for a maximal run of one bit is that number, without a hyphen; for a longer run it is the first and the last number with one hyphen in between |
| `ListTexts.HyphenMeans` | bitmap.c:544-553 | the printed text has a hyphen if and only if two consecutive bits are set |
| `ListTexts.PrintedChars` | bitmap.c:544-595 | nothing is printed but digits, commas and hyphens |
| `ListTexts.PrintedExample` | bitmap.c:555-595 | the bits 0, 1, 2 and 5 print as "0-2,5" |
| `ListTexts.WhiteAround` | bitmap.c:632-646 | white space around a text (blank, tab, newline, vertical tab, form feed, return) does not change acceptance, nor the bits, except that after a final comma it adds bit 0 |
| `ListTexts.PrintedLineIsAccepted` | bitmap.c:571-680 | the printed text with white space around it is accepted and denotes the bitmap if and only if that is not empty |
| `ListTexts.NewlineAfter` | bitmap.c:571-680 | in particular the printed text followed by a newline |
| `WhiteSpace.BlankInItems` | bitmap.c:632-655 | white space anywhere in a text changes its items only after a comma at the very end, where it begins another, empty one |
| `WhiteSpace.FirstItem` | bitmap.c:632-677 | a comma ends an item, and another follows if the text goes on; a NUL ends the text |
| `WhiteSpace.EmbeddedMeans` | bitmap.c:640-646 | a text has embedded white space if and only if, before any NUL, white space comes after a digit and before a character that is not white space |
| `WhiteSpace.BlankAfterDigit` | bitmap.c:640-646 | a digit, white space and any other character in a row, before any NUL, are never accepted |
| `Lists.ListHead.constructor` | include/list.h:25-29 | a new head is an empty ring |
| `Lists.ListAddTail` | include/list.h:95-98 | the ring has the new node at its end |
| `Lists.ListDelEntry` | include/list.h:107-123 | the rest of the nodes form a ring in their order |
| `Lists.ListReplace` | include/list.h:143-150 | the ring has the new node in the place of the old one, also if that was alone |
| `Lists.ListMoveTail` | include/list.h:185-190 | the node goes to the end of the list, which may be its own or another; the list it leaves stays a ring |
| `Lists.ListCutPosition` | include/list.h:254-290 | the entries up to and including the entry form one ring and the rest the other; at the head nothing is moved; an empty list, or a single entry that is not the one named, changes nothing |
| `Lists.ListSplice` | include/list.h:292-318 | the entries of the list come right after the head, before the entries that were there |
| `Lists.CutThenSplice` | include/list.h:254-318 | cutting at any entry or at the head and splicing back restores every link |

## Left out

- Collecting the topology (sysfs files, path formatting, allocation failures): the topology is a parameter, a sequence of CPUs with their node and their caches, or its absence.
- Options, usage, shared-memory and lock-file set-up, `execvp`, environment variables, verbose output, and `--compact`, `--scatter` and `tpp`, which the partitioner does not use.
- The mutex and the condition variables: an interval under the lock is one step, and a waiter resumes when its flag is set. The runs have no spurious wake-ups (`Resume` itself covers them), no timeouts while a process is released, at most ppn callers with distinct positive ids, one round, and `sched_setaffinity` succeeds; the theorems about ranks assume that also for the empty sets of `RendezvousRuns.SharesWhenScarce`, to which binding cannot succeed. Which CPUs `sched_setaffinity` and `sched_getcpu` let the last attacher discover is a parameter.
- The width of C integers: positions, sizes and process ids are natural numbers, so overflow of `int`, of `index + nr` or of `1 << order` is not modelled; unsigned 32-bit wrap-around in the decimal parser is.
- `cpu_set_t` in the rendezvous is a set of numbers below 1024; `Partition.NextCpuIsFindNextBit` relates the search on it to the words.
- Words.Fls: the argument is a 64-bit word below 2^32 instead of an `int`.
- Shifts of a word by 64: the source shifts only a zero operand that far, and the model gives 0.
- Areas.FindNextZeroArea: requires an alignment mask that is one less than a power of two, as the comment at `bitmap.c:348` asks of callers; alignment is on natural numbers, and `Areas.AndNotMaskRoundsDown` relates it to the mask on words.
- Text buffers: texts are sequences of characters, and a buffer too short for the printed text is not modelled.
- ListFormat.ParseList: for a text with an embedded blank, which of the two errors is returned is not stated.
- HexFormat.ParseHex: for a text with an embedded blank, which of the two errors is returned is not stated.
- The user-space wrappers of the parsers, the word-wise operations and predicates (and, or, xor, complement, equal, subset, empty, full), `bitmap_fill` and `bitmap_copy`: they would only add easy members.
- The x86_64 assembly versions of the bit operations: the C versions of aarch64 are modelled.
- List iteration macros, poisoning, debug variants, and the remaining insertions, moves and splices of `list.h`, which differ from the modelled ones in the place only.
