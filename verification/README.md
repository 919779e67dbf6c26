# TWD: a verified model of its buffers, prefixes, times and parsers

This project models the parts of TWD (two-way delay measurement) that carry
state or arithmetic, and proves what they are for.

- `RingBuffer` is `ringbuffer.c` used by one thread: a class over storage that is
  mapped twice, proved to be a bounded FIFO of bytes for every sequence of calls.
- `RingSpsc` is the same ring shared by one writer thread and one reader thread,
  as a step machine. Every load of what the other thread writes, every store and
  every compare-and-swap is a step, and `memcpy` moves one byte a step, so a run is
  any interleaving. `size_t` wraps at 2^64 in the model. Line 200 loads both indices, and C leaves open in which order;
  the model has both orders, with anything in between. The header comment of
  `ringbuffer.c` asks for exclusive access; the one exclusion the model makes is
  between line 200 and the reader's window from line 231 to line 240 with its index
  past `size`: line 200 does not begin inside the window, and the window does not
  open between the two loads. Everything else may overlap, including a write
  admitted earlier that copies and commits inside the window, and reads that end
  between the two loads without drifting past `size`. `ExclusionIsExact` and
  `SplitExclusionIsExact` prove that nothing less would do; the one coincidence in
  which a window between the loads is harmless is part of the statement.
- `RingThreads` runs the two thread programs of `test_ringbuffer.c` over it, for any
  number of records and any ring size that is a multiple of the record size.
- `InfBuffer` is `infbuffer.c` shared by any number of writers and readers, every
  atomic add, store and load a step; `InfThreads` runs the thread programs of
  `test_infbuffer.c` over it.
- `Bits`, `Prefix` and `Martian` are the address prefixes of `util.c`, with bytes as
  bit-vectors, related to the sets of addresses the prefixes denote.
- `TimeVal` (`util.c`, `twd_time.h`), `Seqno` (`util.h`), `ParseMsec` (`util.c`), `Sieve`
  (`bits.h`) and `ParseAddr` (`parse_addr.c`) are the smaller algorithms.
- `RingCore`, `Arithmetic` and `CStrings` hold what several modules share.

In every machine memory is sequentially consistent. That the runs of a machine are
all interleavings is proved too: any initial state starts one, any possible step
continues one, and a thread is never held back except by its own wait loop or the
stated exclusion.

Main results, hardest first:

1. In every run of the ring with one writer and one reader, the bytes handed out by
   reads are a prefix of the bytes committed by writes; no cell is copied in and out
   at once; no copy leaves the double mapping; no `size_t` operation wraps; the
   compare-and-swap loop takes at most two attempts (and sometimes two) and the
   release always ends.
2. In every run of the ring's thread programs the reader sees record 0, 1, 2, ...
   whole, with none missing, and stops at the flagged one with the ring empty.
3. With n writers at most n - 1 of the slots that `widx` claims are still empty, so
   one writer makes `infbuffer.c` an exact FIFO; with two or more a read can
   return an empty slot. The assertions in the test's reader never fail. All its
   readers finish, however the threads interleave, if and only if there are at most
   min(2, items / writers) of them for every writer.
4. `prefixes_cmp` decides the relation of two address sets; masking, containment,
   IPv4 embedding and martians agree with the bit-level meaning; a prefix is martian
   exactly if it lies inside one of eight blocks.
5. `parse_msec` returns the exact millisecond count of a text in its format exactly
   under a stated condition, and -1 for every text that is not.

Where the code does less than one might expect, the exact condition is proved:

- `infbuffer_rem` can return an empty slot if and only if there is more than one
  writer (`EmptyLoadNeedsTwoWriters`); `widx` counts finished adds and not a filled
  prefix.
- The readers of `test_infbuffer.c` stop at the last two numbers of a writer. With
  more than min(2, items / writers) readers for every writer some run therefore
  comes to a standstill with a reader that waits forever, and otherwise none does
  (`AllReadersFinishExactlyWhenFew`). With one writer every run with too many
  readers ends that way (`OneWriterStopsOnlyThatMany`).
- `timeval_minus_msec` is monotone except across its saturation cut-off, where the
  last second before it reports up to 999 more than any later time
  (`MinusMsecMonotoneUnless`). Subtracting undoes `timeval_add_msec` exactly under
  the condition in `MinusUndoesAdd`.
- `timeval_add_msec` with a negative count can leave negative microseconds
  (`TimevalAddMsec`), and `timeval_subtract` can leave a whole second in the
  microseconds of times that are not normalised (`TimevalSubtract`).
- `parse_msec` loses the fraction when its digits, read as a number, do not fit
  32 bits and are worth at least a millisecond (`ExactWhenItFits`).
- `seqno_compare` is not antisymmetric for two numbers exactly half the space apart
  (`CompareAntisymmetricUnless`).

## Model

| member | source | states |
|---|---|---|
| RingSpsc.ReadsArePrefixOfWrites | ringbuffer.c:188-246 | in every run of one writer and one reader the bytes returned by finished reads, then those of a read in its release, are all bytes released, and the returned bytes are a prefix of the committed ones |
| RingSpsc.StepsRefineBoundedFifo | ringbuffer.c:188-246 | the queue visible in memory changes only by a whole enqueue at the commit and a whole dequeue at the release of ridx; every other step, pull-back included, is invisible; never more than size bytes |
| RingSpsc.WriteMovesAllItCan | ringbuffer.c:200-205 | a write takes min(free, amount) bytes, where free is what was free at its load of ridx, and gives up with 0 only if the ring was full then |
| RingSpsc.ReadMovesAllItCan | ringbuffer.c:222-242 | a read takes min(used, amount) bytes and gives up with 0 only on an empty queue |
| RingSpsc.WritesCallersBytes | ringbuffer.c:188-207 | what a write copies and commits is the front of the bytes that its own call was given |
| RingSpsc.CallsReport | ringbuffer.c:207-245 | a call ends with the step that makes its thread idle; a write returns the number of bytes it committed, a read the bytes it released |
| RingSpsc.ReportedIsCommitted | ringbuffer.c:188-208 | in every run the counts that writes returned add up to the bytes committed |
| RingSpsc.CopiesStayMapped | ringbuffer.c:203-230 | every copied range lies inside the mapping of 2 * size bytes, also when its base was taken before the pull-back |
| RingSpsc.CopiesNeverOverlap | ringbuffer.c:203-230 | no cell lies in the range being written and the range being read at the same time |
| RingSpsc.NoStepWraps | ringbuffer.c:147-157 | no size_t subtraction or addition in any reachable step wraps: used and avail are the true differences of the values loaded, widx - size and ridx - size do not underflow |
| RingSpsc.AtMostTwoAttempts | ringbuffer.c:235-239 | the compare-and-swap loop makes at most two attempts, the second always succeeds, and a first failure means the writer has finished its one outstanding commit |
| RingSpsc.SecondAttemptHappens | ringbuffer.c:235-239 | the bound of two is reached: a reachable state is in its second attempt |
| RingSpsc.ReleaseEnds | ringbuffer.c:231-241 | inside the release the reader always has an enabled step, its own steps decrease a measure of at most 6 and the writer's steps do not touch it |
| RingSpsc.IndicesAtRest | ringbuffer.c:231-241 | outside the release ridx <= size and ridx <= widx <= ridx + size |
| RingSpsc.ExclusionIsExact | ringbuffer.c:29-33 | line 200 run in one go is within the free space and the mapping, for any amount, if and only if the reader is not in its window; after the swap avail is too large by exactly size |
| RingSpsc.AllowedAdmissionFits | ringbuffer.c:200-200 | whichever index was loaded first, and whatever was read in between, line 200 never takes more than is free; with widx first it sees exactly what is free |
| RingSpsc.SplitExclusionIsExact | ringbuffer.c:200-240 | a release that opens the window between the two loads of line 200 lets it go wrong at some moment of the window, except exactly when ridx was loaded first, from a full ring, and the read empties it |
| RingSpsc.SplitExclusionIsNeeded | ringbuffer.c:200-240 | such a release with widx loaded first is reachable |
| RingSpsc.ExclusionNeverBlocksBoth | ringbuffer.c:29-33 | a thread held back by the exclusion waits for the other, which then has a step |
| RingSpsc.NothingElseIsExcluded | ringbuffer.c:29-33 | every step held back is a line 200 that would go wrong right now, or a release that would open the window between its two loads |
| RingSpsc.WriterRunsFreely | ringbuffer.c:188-208 | whatever the reader is doing, the writer can begin a write of any length in either order of loads exactly if line 200 is safe, and can always go on with one |
| RingSpsc.ReaderRunsFreely | ringbuffer.c:212-246 | whatever the writer is doing, the reader can begin a read of any amount, and can go on with one unless it would open the window in the middle of line 200 |
| RingSpsc.AnyRingStarts | ringbuffer.c:85-87 | every ring of less than half the address space with both indices 0 starts a run |
| RingSpsc.ReachableStep | ringbuffer.c:188-246 | a run can go on with any step that is possible, so the runs are all interleavings |
| RingSpsc.StepsAreSmall | ringbuffer.c:188-246 | a step of one thread leaves the other's place and history alone and touches at most one cell |
| RingSpsc.PullBackKeeps | ringbuffer.c:233-241 | pulling both indices back by size keeps the whole invariant, in particular all committed and half-copied bytes in place |
| RingSpsc.CopyInKeeps | ringbuffer.c:203-203 | a byte copied in lands behind the committed bytes and spoils none of them |
| RingCore.CellFold | ringbuffer.c:110-138 | inside the double mapping address[i + size] is the cell of address[i] |
| RingBuffer.RunOps | ringbuffer.c:147-282 | any sequence of write, read, peek, reset, used and avail calls on a fresh ring answers exactly as the bounded FIFO does |
| RingBuffer.FlowIsConserved | ringbuffer.c:188-282 | since the last reset the accepted bytes are the removed bytes followed by the queued bytes, in order |
| RingBuffer.Ring.constructor | ringbuffer.c:85-87 | a new ring is empty with the given size |
| RingBuffer.Ring.UsedBytes | ringbuffer.c:154-157 | used is the length of the queue |
| RingBuffer.Ring.AvailBytes | ringbuffer.c:147-150 | avail is size minus the length of the queue |
| RingBuffer.Ring.CopyIn | ringbuffer.c:203-203 | the bytes copied at widx come to lie right behind the queue, across the mirror boundary too |
| RingBuffer.Ring.CopyOut | ringbuffer.c:230-230 | the caller's buffer gets the front of the queue and the rest of it is untouched |
| RingBuffer.Ring.Write | ringbuffer.c:188-208 | appends exactly the first min(free, amount) bytes of the source, moves widx by their number and returns it |
| RingBuffer.Ring.Read | ringbuffer.c:212-246 | removes exactly the first min(used, amount) bytes into the buffer, and pulls both indices back by size exactly if ridx passed it |
| RingBuffer.Ring.CompareAndSwapWidx | atomic.h:6-6 | returns the old value, and stores exactly if that was the expected one |
| RingBuffer.Ring.Peek | ringbuffer.c:250-268 | returns the bytes the next read would and leaves the queue unchanged |
| RingBuffer.Ring.Reset | ringbuffer.c:272-282 | the queue becomes empty and both indices 0 |
| RingThreads.ReaderSeesEveryRecordInOrder | test_ringbuffer.c:120-176 | in every run the reader has taken records 0, 1, 2, ... with none missing or truncated, is done exactly when it has taken all, and then the ring holds nothing |
| RingThreads.RecordsAreNumberedAndFlagged | test_ringbuffer.c:149-168 | in every run the k-th record taken carries number k, timestamp 0, and flag 1 exactly if it is the last of the n |
| RingThreads.ThreadsRunFreely | test_ringbuffer.c:120-176 | a thread is held back only by the end of its loop or by the exclusion of line 200 and the window |
| RingThreads.NoStepLeftExactlyAtTheEnd | test_ringbuffer.c:120-176 | no step is left exactly when all n records have been written and taken |
| RingThreads.AnySysStarts | test_ringbuffer.c:120-176 | the two threads start over any fresh ring |
| RingThreads.SysReachableStep | test_ringbuffer.c:120-176 | a run of the threads can go on with any step that is possible |
| RingThreads.ReaderDetectsGaps | test_ringbuffer.c:128-141 | on any stream of unflagged records the reader reports a missing number exactly if they are not numbered 0, 1, 2, ... |
| RingThreads.OtherCounts | test_ringbuffer.c:128-173 | a call that moved nothing is tried again; a short count ends the reader, is tried again by the writer, and is taken only for the last record |
| RingThreads.EncodedFields | test_ringbuffer.c:19-23 | the record's number lies in bytes 8 to 11 and its flags in bytes 12 to 15, least significant byte first |
| RingThreads.OnlyWholeRecordsMove | test_ringbuffer.c:128-170 | every write and every read of either thread moves nothing or one whole record |
| RingThreads.SomeThreadCanMove | test_ringbuffer.c:128-170 | between calls, while the reader runs, there is a whole record to read or room and a record left to write |
| RingThreads.DecodeEncode | test_ringbuffer.c:19-23 | the sixteen bytes of a record decode to the record |
| RingThreads.NextRecordRead | test_ringbuffer.c:131-140 | the bytes a read returns are exactly the next record in sequence |
| InfBuffer.FewUnfilledSlots | infbuffer.c:40-55 | tidx - widx is the number of adds in flight, and at most n - 1 slots below widx, and no more than adds in flight, are still empty |
| InfBuffer.UnfilledBoundIsReached | infbuffer.c:40-55 | for every n the bound n - 1 is reached with all tickets inside the array, if and only if that has 2 * (n - 1) slots |
| InfBuffer.TicketsBoundTheRun | infbuffer.c:40-55 | after i steps, i is three times the tickets drawn less the steps still due, so a run goes on only by drawing tickets |
| InfBuffer.EmptyLoadNeedsTwoWriters | infbuffer.c:49-55 | a rem that returns an empty slot is reachable if and only if there are at least two writers |
| InfBuffer.OneWriterIsFifo | infbuffer.c:40-55 | with one writer the rem that drew ticket i returns the i-th item added |
| InfBuffer.TwoWritersCanMiss | infbuffer.c:40-55 | a run with two writers in which the first rem finds nothing |
| InfBuffer.QuiescentBufferIsComplete | infbuffer.c:40-45 | with no add in flight widx == tidx and the array holds exactly the drawn items in ticket order, then empty slots |
| InfBuffer.TicketsAreTheAddsBegun | infbuffer.c:40-42 | the tickets are the adds of the run in the order they began |
| InfBuffer.StoredOnce | infbuffer.c:42-44 | a filled slot never changes and is filled only by the add that drew its ticket, with that add's item |
| InfBuffer.LoadedAtMostOnce | infbuffer.c:51-54 | no two finished rems loaded the same slot |
| InfBuffer.NoOverrun | infbuffer.c:42-54 | no access leaves the array as long as no more tickets were drawn than it has slots |
| InfBuffer.OverrunExactlyBeyondTheArray | infbuffer.c:42-54 | with no add in flight some access has left the array if and only if more tickets were drawn than it has slots |
| InfBuffer.OnlyTheWaitLoopBlocks | infbuffer.c:40-55 | nothing but its own wait loop ever holds a thread back |
| InfBuffer.StartReachable | infbuffer.c:27-36 | the initial state starts a run, for any numbers of slots and threads |
| InfBuffer.ReachableStep | infbuffer.c:40-55 | a run can go on with any step that is possible |
| InfBuffer.StartInv | infbuffer.c:27-36 | the initial counters and empty slots satisfy the invariant |
| InfBuffer.StepKeeps | infbuffer.c:40-55 | every step of every thread keeps the invariant |
| InfBuffer.Buffer.constructor | infbuffer.c:27-36 | a new buffer is empty, and its memory is that of the machine's initial state |
| InfBuffer.Buffer.Add | infbuffer.c:40-45 | used by one thread, an add appends the item, and leaves the memory that the machine's three steps of an add leave |
| InfBuffer.Buffer.Rem | infbuffer.c:49-55 | used by one thread, the rem with ticket i removes the i-th item ever added, or is still waiting if there is none, and both as the machine's steps of a rem do |
| InfBuffer.Buffer.Resume | infbuffer.c:52-54 | the wait loop of ticket i ends exactly when more than i items were added, with the i-th |
| InfThreads.AssertionsHoldAndIndicesFit | test_infbuffer.c:80-113 | the reader's assertions never fail, and no more than writers * (items / writers) <= items slots are ever used |
| InfThreads.EachReaderSeesEachWriterInOrder | test_infbuffer.c:97-104 | what one reader gets from one writer has strictly increasing sequence numbers |
| InfThreads.FinishedWritersFillTheBuffer | test_infbuffer.c:51-76 | when all writers have done their items / n adds, the filled slots hold every number from 1 to items / n of every writer, with the magic number, and nothing is empty |
| InfThreads.StandstillHoldsEveryItem | test_infbuffer.c:51-113 | when no step is left, n * (items / n) adds are done and every number from 1 to items / n of every writer is in the buffer |
| InfThreads.LoadedItemsAreSound | test_infbuffer.c:91-104 | every item a reader gets has the magic number, a writer's id and a number from 1 to items / n |
| InfThreads.AssertionsAskForThat | test_infbuffer.c:91-104 | the reader's assertions fail on every item with another magic number, another id, or a number not above the last one from its writer |
| InfThreads.ThreadsRunFreely | test_infbuffer.c:51-113 | a writer is never held back before its last add, a looping reader only by the wait for an add |
| InfThreads.AnySysStarts | test_infbuffer.c:175-215 | the threads start with an empty buffer and nothing done, for any numbers of them |
| InfThreads.SysReachableDo | test_infbuffer.c:51-113 | a run of the threads can go on with any step that is possible |
| InfThreads.LaterTicketHigherNumber | test_infbuffer.c:97-104 | an item behind a later ticket has a higher number than the reader's last one from that writer |
| InfThreads.LoadedItemDecides | test_infbuffer.c:91-112 | a reader goes on only after an item below its own maxseq, and stops only because of an empty slot or an item at or above it |
| InfThreads.RunOfBuffer | test_infbuffer.c:51-113 | a run of the thread programs is a run of the buffer, so every result about the buffer holds of it |
| InfThreads.FewReadersDrawOnlyServedTickets | test_infbuffer.c:80-113 | with at most min(2, items / n) readers for every writer, no reader ever draws a ticket that no add will serve |
| InfThreads.OnlyThatManyReadersStop | test_infbuffer.c:80-113 | in a run without an empty slot returned, no more than n * min(2, items / n) readers have stopped |
| InfThreads.OneWriterStopsOnlyThatMany | test_infbuffer.c:80-113 | with one writer at most min(2, items) readers ever stop, in every run |
| InfThreads.AllReadersFinishExactlyWhenFew | test_infbuffer.c:51-113 | every run that has no step left has all its readers stopped, if and only if m <= n * min(2, items / n) |
| InfThreads.ManyReadersGetStuck | test_infbuffer.c:51-113 | with more readers a run is built that ends with all writers through and a reader waiting forever |
| InfThreads.EveryRunEnds | test_infbuffer.c:51-113 | no run has more than 6 * n * (items / n) + 3 * m steps |
| Bits.AgreeByBytes | util.c:219-227 | comparing whole bytes and one masked byte is agreement on the leading bits |
| Prefix.InPrefixIsAgreement | util.c:210-228 | in_prefix holds exactly if the first min(plen, 128) bits agree |
| Prefix.MaskPrefixInto | util.c:230-245 | the buffer receives the masked prefix |
| Prefix.MaskBit | util.c:230-245 | mask_prefix keeps exactly the first plen bits and clears the rest |
| Prefix.MaskOfMask | util.c:230-245 | masking twice is masking to the shorter length |
| Prefix.InPrefixIsEqualMasks | util.c:210-245 | in_prefix(x, p, l) holds exactly if x and p are equal after masking to l |
| Prefix.MaskedPrefixSameSet | util.c:210-245 | a masked prefix denotes the same addresses |
| Prefix.PrefixesCmp | util.c:481-506 | the byte loop and the shifted signed mask decide agreement on the first min(plen1, plen2) bits, then the lengths |
| Prefix.FirstBytesDiffer | util.c:485-499 | the loop and the masked byte detect exactly a difference in the leading bits |
| Prefix.ShiftKeepsSign | util.c:486-496 | one right shift of a signed char halves it and keeps its sign |
| Prefix.ShiftedSignIsHighMask | util.c:486-496 | shifting the signed char 1 << 7 right by min - 1 gives the mask of the first min bits |
| Prefix.CompareDecidesSets | util.c:481-506 | for lengths up to 128 the four outcomes are exactly disjoint, equal, strict superset and strict subset of the address sets |
| Prefix.NestedOrDisjoint | util.c:481-506 | any two prefixes are nested or disjoint |
| Prefix.MoreSpecificTransitive | util.c:481-506 | "more specific" is transitive and excludes its converse |
| Prefix.CompareMirrored | util.c:481-506 | swapping the arguments swaps the two specific outcomes |
| Martian.EmbeddingKeepsRelations | util.c:452-457 | embedding IPv4 with lengths shifted by 96 preserves and reflects containment and all outcomes of the comparison |
| Martian.V4ToV6Into | util.c:452-457 | the destination receives ten zero bytes, two bytes 0xFF and the four bytes of the source |
| Martian.MappedForm | util.c:446-450 | exactly the addresses of ten zero bytes, two bytes 0xFF and any four bytes are v4-mapped |
| Martian.OnlyMappedInside | util.c:446-450 | a v4-mapped prefix contains only v4-mapped addresses if and only if its length is at least 96 |
| Martian.MaskingKeepsMapped | util.c:446-450 | masking at a length of at least 96 keeps an address v4-mapped |
| Martian.MartianDependsOnPrefixBits | util.c:427-438 | whether a prefix is martian depends on no bit after its length |
| Martian.MartianUnchangedByMask | util.c:427-438 | masking a prefix does not change whether it is martian |
| Martian.MartianInherited | util.c:427-438 | every prefix equal to or more specific than a martian one is martian |
| Martian.MartianIsInBlock | util.c:427-438 | the masks and comparisons recognise exactly the prefixes inside ff00::/8, fe80::/10, ::/128, ::1/128 or the mapped 127.0.0.0/8, 0.0.0.0/8, 224.0.0.0/4 and 240.0.0.0/4 |
| TimeVal.TimevalMinus | util.c:52-63 | the difference of the instants, normalised for normalised inputs, also in place; a second is borrowed exactly if the microseconds need it |
| TimeVal.TimevalSubtract | twd_time.h:25-44 | the difference of the instants, y's instant unchanged and y left as what the result was subtracted from, the sign flag, and exactly when a whole second is left in the microseconds |
| TimeVal.SubtractionsAgree | twd_time.h:25-44 | on normalised times both subtractions give the same result |
| TimeVal.CompareIsSign | util.c:100-113 | on normalised times timeval_compare is the sign of the difference |
| TimeVal.CompareIsLexicographic | util.c:100-113 | on all times it is antisymmetric, zero only for equal times, and decided by the seconds before the microseconds |
| TimeVal.TimevalAddMsec | util.c:86-98 | the sum is the right instant for every count and every start, also in place; from a normalised time it is normalised exactly if no borrow would be needed, and a second is carried exactly if the microseconds reach one |
| TimeVal.AddsMsecUnique | util.c:86-98 | from a normalised time that determines both fields |
| TimeVal.MinusMsecError | util.c:65-84 | below the cut-off a non-negative difference is reported with an error under a millisecond |
| TimeVal.MinusMsecValue | util.c:65-84 | up to the cut-off the unsigned and int conversions change nothing, beyond it the count is 2000000000 |
| TimeVal.MinusUndoesAdd | util.c:65-98 | subtracting undoes adding m milliseconds exactly if m is not negative and the sum is at most 2000000 whole seconds later |
| TimeVal.MinusMsecMonotoneUnless | util.c:71-78 | a later time gives no smaller count, except exactly across the saturation cut-off |
| ParseMsec.ParseMsec | util.c:156-196 | the loops compute the result defined by the text's decomposition, 32-bit wrap-around included |
| ParseMsec.FormattedText | util.c:156-196 | every text of the format, however split into parts, gives the value of its parts |
| ParseMsec.OtherText | util.c:189-195 | every text that is not of the format gives -1 |
| ParseMsec.ExactWhenItFits | util.c:162-193 | the result is whole * 1000 + floor(fraction * 1000 / 10^j) exactly if that fits an int and the fraction digits fit 32 bits or are worth less than a millisecond |
| ParseMsec.ParsingInvertsWriting | util.c:156-196 | parsing the decimal text of any in-range millisecond count gives it back |
| ParseMsec.ScaleToMsec | util.c:179-186 | dropping or appending digits one at a time is one division |
| ParseMsec.ReadDigits | util.c:166-177 | a digit loop stops at the end of the digits with their value modulo 2^32 |
| ParseMsec.ReadFraction | util.c:170-187 | the optional point and its digits in milliseconds |
| ParseMsec.SkipBlanks | util.c:164-165 | a blank loop stops at the first character that is no blank |
| ParseMsec.Characters | util.c:164-167 | the blanks are space and tab, the digits are 0 to 9 with their values |
| Seqno.CompareIsSign | util.h:103-110 | less than half the space apart, seqno_compare is the sign of the difference of the unbounded counters |
| Seqno.MinusIsDifference | util.h:112-116 | seqno_minus is the true difference exactly if that is a short |
| Seqno.MinusUndoesPlus | util.h:112-122 | subtracting undoes adding exactly for distances that are shorts |
| Seqno.CompareTransitiveInWindow | util.h:103-110 | seqno_compare is transitive inside any half window |
| Seqno.CompareAntisymmetricUnless | util.h:103-110 | seqno_compare is antisymmetric exactly unless the numbers are half the space apart |
| Seqno.CompareAtHalf | util.h:103-110 | of two numbers half the space apart each compares as the greater one |
| Sieve.PrintPrimes | bits.h:15-30 | the printed numbers are exactly the primes below the bound, in increasing order, with every slot inside the array |
| Sieve.CrossOff | bits.h:25-26 | the inner loop marks exactly the proper multiples of the prime i |
| Sieve.UncrossedIsPrime | bits.h:22-24 | when the outer loop reaches i it is unmarked exactly if it is prime |
| Sieve.BitSet | bits.h:3-5 | sets one bit and changes no other |
| Sieve.BitClear | bits.h:6-6 | clears one bit and changes no other |
| Sieve.BitMask | bits.h:3-3 | bit b is bit b % 8 of its byte, from the least significant on |
| Sieve.BitSlot | bits.h:4-4 | the slot of bit b is the one whose eight bits include it |
| Sieve.BitNSlots | bits.h:8-8 | the least number of bytes that hold that many bits |
| ParseAddr.Split | parse_addr.c:36-70 | accepts with address a and port p exactly if the string is "[a]:p", or "a:p" with a not starting with a bracket, and p has no colon; rejects every other string |
| ParseAddr.CutAt | parse_addr.c:49-70 | the NULs written into the copy leave exactly the two strings |
| ParseAddr.Memrchr | parse_addr.c:47-47 | the position of the last such character, or none |
| ParseAddr.JoinsIsSplit | parse_addr.c:38-70 | the split at the last colon is the only way to read the string |

## Left out

- RingSpsc.ReadsArePrefixOfWrites: assumes the stated exclusion between line 200 and the window, because without it `ExclusionIsExact` and `SplitExclusionIsExact` show that line 200 can go wrong; weak memory ordering is not modelled.
- RingBuffer.Ring.constructor: the mmap, file and page-size steps of ringbuffer_init and ringbuffer_destroy are operating-system calls; only the aliasing of the two halves and the initial indices are kept, and any positive size is allowed.
- InfBuffer.StepKeeps: the counters are unbounded and do not wrap at 2^64, and an item is never the null pointer.
- TimeVal.TimevalSubtract: seconds and microseconds are unbounded integers; overflow of long and of the int borrow count is not modelled.
- Prefix.PrefixesCmp: requires the shorter length to be at most 128, because the code reads past the address otherwise.
- RingThreads.ReaderSeesEveryRecordInOrder: yields and messages are not modelled; that a run goes on is the scheduler's part.
- Martian.MartianDependsOnPrefixBits: the all-zero address that util.c compares with is declared there and defined elsewhere; it is taken as sixteen zero bytes.
- ParseAddr.Split: getaddrinfo and what follows it are library calls.
- old_ringbuffer_used in ringbuffer.c is kept by its author as a known-bad leftover.
- roughly, timeval_min, timeval_min_sec, parse_nat, parse_address, parse_net, parse_eui64 and the format functions of util.c are random, library calls or single branches.
- protocol.c holds stubs; packet.c, cmsg.c, recvmsg.c, network.c, thread_timer.c and the servers and clients are socket and timer plumbing; dscp.c is a fixed table; log.c and twd.c are counters and options.
