# Verified models of the course repository

This project models, in Dafny, algorithms and protocols of an HSE C++
course repository and proves what they are for. `dafny verify dfyconfig.toml` checks
everything. One module stands for one source file or component.

**Baseline JPEG entropy decoder** (`Bits`, `HuffmanCodes`, `Huffman`, `BitReading`,
`EntropyCoding`, `ScanSpec`, `Scanning`, `FrameStats`, `Layouts`, `Transforms`). The
specification is ITU-T T.81 and does not follow the code: canonical codes by the
"increment, shift on length change" recurrence of section C.2, byte stuffing by section
F.1.2.3, entropy coding by section F.1.2, block order by section A.2.3, the zig-zag walk
by figure A.6. The code builds its tree by a mutating depth-first search that never
computes a code; it is shown to build exactly the canonical codes, to fail exactly when
Kraft's inequality fails, and the decoder on top of it to invert the encoding. Tree nodes,
trees, the bit reader and the frame header are classes with the source's fields; the loops
are the source's loops.

**Protocols** (`Barriers`, `ThreadManagers`, `ThreadPools`, `Semaphores`, `Latches`,
`HashMapLocks`, `HashMapRuns`, `HashMapSet`). The fields and the mutex sections are classes
with methods; a state machine over any finite set of threads interleaves those sections,
with sleeping and notified threads told apart. A method and the step for it are tied by
shared functions in the barrier, the thread manager, the queue, the latches and the hash
map, and by a lemma in the semaphore. A *run* is any sequence of enabled steps from an
initial state; the main theorems are about all states of all runs. Waiters may wake up
without a reason, except in the semaphore.

**Shared values and containers** (`Statuses`, `HashMaps`). `Status` is a reference-counted
copy-on-write value: a heap of reps shared by handles, with the abstract value of every
handle as the specification. The hash table, run sequentially, refines a finite map.

**Loop-heavy arithmetic** (`ArgsProducts`, `AddRanges`, `Reduces`, with `Arithmetic`).

## What the proofs found

- `Semaphore` can leave a waiter behind: it sleeps although the count is positive and
  nobody will notify it. `Semaphores.WaiterLeftBehind` is such a run, and
  `Semaphores.LeftBehindIff` has the exact condition: some step went to sleep past a
  positive count, by one of two guards, and no later `Leave` found the last sleeper.
  `Semaphores.StuckUntilLeave`: until somebody calls `Leave`, nobody gets in any more.
- Two concurrent `Insert`s of one key can store it twice (`HashMapRuns.SameKeyTwice`, for
  any key and hash). `HashMapSet.UniqueIff` has the exact condition: one of them stores its
  key although another thread has stored it, and nobody has taken it out again, since this
  one looked. It is enough that insertions of one key do not overlap there
  (`HashMapSet.UniqueWhenApart`), and then all operations answer as one set would
  (`HashMapSet.AnswersWhenApart`). Buckets and counter stay right in any case
  (`HashMapRuns.EntriesInPlace`).
- A well-formed picture whose last data byte is 0xFF is refused: the zero stuffed after that
  byte is still in the stream when `CheckEnd` looks for the end marker
  (`Scanning.JpegReader.ScanToEnd` says exactly when, `ScanSpec.LastByteCanBeFF` has one).
- `ThreadPool::Join` on a pool without workers drops the accepted tasks
  (`ThreadPools.JoinLosesTask`; `ThreadPools.JoinMeansAllRun` has the exact condition).
- `AddRange` lists 0 twice exactly when the range starts at 0 and ends at 2 or above.
- The bit reader drops a leading 0x00 if the byte buffered before the scan is 0xFF
  (`BitReading.UnstuffStuffIff` has the exact condition).
- Picture sizes are kept in signed 16-bit fields, so MCUs are counted right exactly for
  sizes below 32768 (`FrameStats.CountedRightIff`).
- A moved-from `Status` looks like one built with code 13 and the moved-from message, yet
  they compare different (`Statuses.MovedFromImitated`); `Statuses.VisibleEquality` shows
  that this is the only exception.
- A frame header that does not declare the component ids 1, 2 and 3 makes the code touch an
  empty channel (`FrameStats.GreyHeader`); `FrameStats.Stats.ReadStats` says exactly when.
- `Reduce` needs no right identity: no chunk is ever empty.
- Two operations on moved or shared statuses are easy to misread: move-assigning a status
  to another that shares its rep moves nothing, and writing to a moved-from status drops
  its message.
- The final "no" check of `Build` can never fire.

## Model

| member | source | states |
|---|---|---|
| HuffmanCodes.HuffSizeClass | tasks/jpeg-decoder/baseline/huffman.cpp:33-42 | the k-th value has the length class whose cumulated counts enclose k, so lengths are filled in non-decreasing order |
| HuffmanCodes.HuffCodeIsKraftTaken | tasks/jpeg-decoder/baseline/huffman.cpp:45-70 | the code that section C.2 gives to the k-th value is exactly the share of the code space that the values before it take up |
| HuffmanCodes.FitsIffKraft | tasks/jpeg-decoder/baseline/huffman.cpp:33-37 | a canonical code fits into its length if and only if the codes up to it obey Kraft's inequality |
| HuffmanCodes.AllFitIffKraft | tasks/jpeg-decoder/baseline/huffman.cpp:18-43 | all codes of a table fit if and only if its Kraft sum, taken per length, is at most 1 |
| Huffman.LookupPut | tasks/jpeg-decoder/baseline/huffman.cpp:50-55 | placing a leaf changes what its own path finds and what no other path finds |
| Huffman.PutExtendsPrefix | tasks/jpeg-decoder/baseline/huffman.cpp:45-70 | the first free place of a length lies on a path without leaves, and taking it keeps the filled places a left-to-right prefix |
| Huffman.FilledPrefixDeeper | tasks/jpeg-decoder/baseline/huffman.cpp:45-70 | seen `more` levels deeper the filled places are still a prefix, multiplied by a power of two, which is the shift of section C.2 |
| Huffman.FilledStep | tasks/jpeg-decoder/baseline/huffman.cpp:50-53 | the next value goes to the least length class that still misses leaves, and only that counter grows |
| Huffman.Try | tasks/jpeg-decoder/baseline/huffman.cpp:45-70 | the search succeeds exactly when the class has a free place; then the leaf is at the bits of the place's number and one counter grows by one; otherwise the codes and the counters are unchanged; the depth never passes the least unfilled length, so indices are in bounds |
| Huffman.BuiltNext | tasks/jpeg-decoder/baseline/huffman.cpp:33-37 | one more placement keeps the tree canonical: each value found at its C.2 code word and nothing found elsewhere |
| Huffman.Fill | tasks/jpeg-decoder/baseline/huffman.cpp:31-42 | the placing loop succeeds if and only if the Kraft sum is at most 1, and the check after it never fails |
| Huffman.HuffmanTree.Build | tasks/jpeg-decoder/baseline/huffman.cpp:18-43 | success if and only if there are at most 16 lengths, they sum to the number of values, and Kraft's inequality holds; then lookup is exactly the canonical code table; which error otherwise, and what is then in the tree |
| Huffman.HuffmanTree.Move | tasks/jpeg-decoder/baseline/huffman.cpp:72-86 | one step of the decoding automaton, with the tree unchanged |
| Huffman.FeedConcat | tasks/jpeg-decoder/baseline/huffman.cpp:72-86 | feeding two bit strings in turn is feeding their concatenation |
| Huffman.FeedSymbols | tasks/jpeg-decoder/baseline/huffman.cpp:72-86 | fed the code words of any list of symbols, a built tree reports each symbol exactly at the last bit of its word, and ends at the root |
| Huffman.FeedStuck | tasks/jpeg-decoder/baseline/huffman.cpp:73-79 | once a bit has no edge, every later call throws |
| Huffman.FeedOffCode | tasks/jpeg-decoder/baseline/huffman.cpp:72-86 | after any symbols, bits that begin a code word throw nothing, and from the first bit with which they begin none every bit throws; with `FeedSymbols` this is what the automaton does on every input |
| BitReading.UnstuffStuff | tasks/jpeg-decoder/baseline/bit_reader.cpp:6-16 | the byte loop recovers stuffed data (section F.1.2.3), whatever comes after it |
| BitReading.UnstuffStuffIff | tasks/jpeg-decoder/baseline/bit_reader.cpp:8-12 | data comes back if and only if it does not begin with a zero that follows a buffered 0xFF |
| BitReading.BitReader.GetBit | tasks/jpeg-decoder/baseline/bit_reader.cpp:6-24 | takes the first of the pending unstuffed bits, most significant first, and fails exactly when there is none |
| BitReading.BitReader.GetBits | tasks/jpeg-decoder/baseline/bit_reader.cpp:26-43 | takes `cnt` bits as an unsigned number although the accumulator is a signed 16-bit one; the two errors exactly when they apply; the first bit reported |
| BitReading.ByteBitsAre | tasks/jpeg-decoder/baseline/bit_reader.cpp:17-23 | the bits of a byte are its binary digits, the most significant first, as masking finds them |
| BitReading.Int16Step | tasks/jpeg-decoder/baseline/bit_reader.cpp:38-42 | shifting the signed 16-bit accumulator loses nothing up to 16 bits |
| BitReading.PlaceOfBits | tasks/jpeg-decoder/baseline/bit_reader.cpp:6-24 | how many bits are still to come says where in the stream the reader stands |
| BitReading.ReadsThrough | tasks/jpeg-decoder/baseline/bit_reader.cpp:6-24 | after the bits of stuffed data the reader has taken all of the data bytes and nothing that follows them, the zero stuffed after the last one included |
| EntropyCoding.DecodeSymbolInverts | tasks/jpeg-decoder/baseline/reader.cpp:232-233 | DECODE reads back the code word of a symbol and stops right after it |
| EntropyCoding.ReceiveInverts | tasks/jpeg-decoder/baseline/reader.cpp:234-239 | RECEIVE and EXTEND read back the magnitude bits of any difference of category at most 16, of either sign |
| EntropyCoding.MagnitudeComplements | tasks/jpeg-decoder/baseline/reader.cpp:234-239 | the bits after a size are the binary digits of a positive value, and their complement for its negative, so the first bit is the sign |
| EntropyCoding.CodedRun | tasks/jpeg-decoder/baseline/reader.cpp:245-275 | after any number of zeros a coefficient is coded by one ZRL per sixteen of them, then the symbol with the rest of the run and the category, then its bits |
| EntropyCoding.CodedEnd | tasks/jpeg-decoder/baseline/reader.cpp:269-271 | zeros up to the end of a block are coded by one symbol |
| EntropyCoding.RunPastBlock | tasks/jpeg-decoder/baseline/reader.cpp:254-268 | a run past the block is an error, and one that leads right behind the last coefficient ends the block |
| EntropyCoding.DecodeDcInverts | tasks/jpeg-decoder/baseline/reader.cpp:227-244 | DC decoding inverts the coding of a DC difference |
| EntropyCoding.DecodeAcInverts | tasks/jpeg-decoder/baseline/reader.cpp:245-275 | AC decoding inverts run/size coding, ZRL and end of block included, and multiplies by the quantisers |
| ScanSpec.DecodeBlockInverts | tasks/jpeg-decoder/baseline/reader.cpp:226-276 | a block comes back with every coefficient times its quantiser, and its DC value becomes the next prediction |
| ScanSpec.CodedBlock | tasks/jpeg-decoder/baseline/reader.cpp:227-244 | each block of an encoded scan is predicted from the last block before it of the same component, or from zero if there is none |
| ScanSpec.DecodeScanInverts | tasks/jpeg-decoder/baseline/reader.cpp:220-278 | for every list of blocks that can be encoded, decoding gives all of them back in order, with one DC prediction per component, and leaves the bits after them |
| ScanSpec.InRangeCanBeEncoded | tasks/jpeg-decoder/baseline/reader.cpp:234-270 | tables with codes for all DC and AC categories up to given sizes can encode every sequence of blocks in the ranges of those sizes, so the two theorems on decoding are about all of them |
| ScanSpec.PackKeepsBits | tasks/jpeg-decoder/baseline/bit_reader.cpp:17-23 | filling up the last byte with 1-bits keeps the coded bits in front |
| ScanSpec.ScanInvertsEncoding | tasks/jpeg-decoder/baseline/reader.cpp:220-278 | blocks encoded, packed and stuffed are decoded again from the unstuffed bytes, whatever follows in the stream, and exactly the coded bits are used up |
| ScanSpec.EndIsNextIff | tasks/jpeg-decoder/baseline/reader.cpp:280-284 | after a scan the end marker is next if and only if the last data byte is not 0xFF |
| ScanSpec.LastByteCanBeFF | tasks/jpeg-decoder/baseline/reader.cpp:280-284 | a block of zeros, with tables of two one-bit codes, is coded in the single byte 0xFF |
| Scanning.NextSymbol | tasks/jpeg-decoder/baseline/reader.cpp:232-233 | feeding bits to the automaton until it reports is DECODE, and leaves the table at its root |
| Scanning.JpegReader.ChannelNum | tasks/jpeg-decoder/baseline/reader.cpp:286-298 | the component of a block in the interleaved order of section A.2.3 |
| Scanning.JpegReader.Scan | tasks/jpeg-decoder/baseline/reader.cpp:220-278 | the decoding loops over reader and tables compute the decoding of a scan, errors included, and leave the bits after it |
| Scanning.JpegReader.ScanEncoded | tasks/jpeg-decoder/baseline/reader.cpp:220-278 | run on what an encoder wrote, from a byte boundary, the loops return every block dequantised; and they leave in the stream exactly what follows the last data byte, a zero stuffed after it included |
| Scanning.JpegReader.CheckEnd | tasks/jpeg-decoder/baseline/reader.cpp:280-284 | accepts exactly if the end marker is next in the stream |
| Scanning.JpegReader.ScanToEnd | tasks/jpeg-decoder/baseline/decoder.cpp:11-14 | scanning a well-formed picture and then checking its end accepts it if and only if its last data byte is not 0xFF |
| FrameStats.CountedRightIff | tasks/jpeg-decoder/baseline/reader.cpp:146-149 | the MCUs along a side are the least number that covers it if and only if the size is below 32768 |
| FrameStats.DerivedRegular | tasks/jpeg-decoder/baseline/reader.cpp:146-151 | for sizes below 32768 no `size_t` product wraps, and the derived sizes describe the picture |
| FrameStats.Permutation | tasks/jpeg-decoder/baseline/reader.cpp:115-135 | at most three declarations that cover the ids 1, 2 and 3 are a permutation of them, and each channel keeps its own declaration |
| FrameStats.Stats.ReadStats | tasks/jpeg-decoder/baseline/reader.cpp:97-152 | rejected exactly for a bad count, a size that does not match it, or a factor other than 1 and 2; accepted exactly if the ids 1, 2 and 3 are all declared, in any order, else an empty channel is touched; then largest factors, blocks per MCU and per-channel ratios are those of the declared components, and the block count fits the picture |
| FrameStats.GreyHeader | tasks/jpeg-decoder/baseline/reader.cpp:133-138 | the header of a picture with one component makes the code touch an empty channel |
| FrameStats.KeptComponents | tasks/jpeg-decoder/baseline/reader.cpp:121-151 | what was read of the components has as many blocks per MCU as the interleaved order, and is laid out as the pixel arithmetic expects |
| Scanning.ReadHeaderDescribes | tasks/jpeg-decoder/baseline/reader.cpp:97-152 | an accepted header sets the scan up as `Scan` and `ConstructImage` both need it |
| Layouts.BlockInScan | tasks/jpeg-decoder/baseline/transforms.cpp:47-61 | the block at any place of a component is below the block count, and its MCU and place in the MCU can be read off its index |
| Layouts.BlocksDistinct | tasks/jpeg-decoder/baseline/transforms.cpp:47-61 | two blocks of a component have the same index if and only if they are at the same place |
| Layouts.BlocksOfMcu | tasks/jpeg-decoder/baseline/transforms.cpp:47-61 | the scan begins at the top left; within an MCU the next luma block is the one to the right, then the first of the next row, then the first chroma block |
| Layouts.NextMcu | tasks/jpeg-decoder/baseline/transforms.cpp:47-50 | after the second chroma block comes the top left block of the MCU to the right, and after the last MCU of a row the first one of the row below |
| Layouts.ComponentOfBlock | tasks/jpeg-decoder/baseline/reader.cpp:286-298 | the component that `ChannelNum` gives for the index of a block is the component it was placed for |
| Layouts.SamplesInRows | tasks/jpeg-decoder/baseline/transforms.cpp:52-73 | a block holds its samples from left to right and from top to bottom |
| Layouts.PixelsOfSample | tasks/jpeg-decoder/baseline/transforms.cpp:52-73 | a luma sample is taken by the pixel at its place, a chroma sample by exactly the pixels of its group of rows and columns |
| Layouts.LumaIsOwn | tasks/jpeg-decoder/baseline/transforms.cpp:52-66 | two pixels take the same luma sample if and only if they are the same pixel |
| Layouts.ChromaIsShared | tasks/jpeg-decoder/baseline/transforms.cpp:56-73 | two pixels take the same chroma sample if and only if they lie in the same group of largest-factor rows and columns |
| Transforms.LumaIndex | tasks/jpeg-decoder/baseline/transforms.cpp:47-67 | the code's index arithmetic for luma names the block and sample that section A.2.3 puts at the pixel |
| Transforms.ChromaIndex | tasks/jpeg-decoder/baseline/transforms.cpp:47-73 | the same for the two chroma components at the pixel's subsampled place |
| Transforms.Samples | tasks/jpeg-decoder/baseline/transforms.cpp:47-73 | every index read is in range, and the three values are the samples of the pixel |
| Transforms.ConstructImage | tasks/jpeg-decoder/baseline/transforms.cpp:44-77 | every pixel of the picture is set, from its own luma sample and its group's chroma samples, which `Layouts.BlocksOfMcu`, `NextMcu`, `SamplesInRows` and `PixelsOfSample` place in raster order |
| Transforms.RankInjective | tasks/jpeg-decoder/baseline/transforms.cpp:4-11 | the zig-zag walk of figure A.6, given by a formula, visits no two cells at the same place |
| Transforms.TableInPlace | tasks/jpeg-decoder/baseline/transforms.cpp:4-11 | entry k of the two tables is the cell that the walk visits at place k |
| Transforms.TableWalks | tasks/jpeg-decoder/baseline/transforms.cpp:4-11 | from each entry to the next the tables make the move of figure A.6: from the top left up and to the right on even antidiagonals, down and to the left on odd ones, along the edge where they meet it |
| Transforms.CellOfRank | tasks/jpeg-decoder/baseline/transforms.cpp:4-16 | conversely the tables send the place of each cell to that cell, so they are a permutation |
| Transforms.Convert | tasks/jpeg-decoder/baseline/transforms.cpp:3-20 | every block is rearranged in place from the order of the walk to row-major order, no entry lost |
| Barriers.Barrier.CreateBarrier | contrib/benchmark/src/mutex.h:132-137 | the locked part before the wait is the section that the protocol's call runs: sleeping with the saved phase, or opening the next phase; the check fails exactly if as many have entered as are running |
| Barriers.Barrier.AfterWait | contrib/benchmark/src/mutex.h:143-149 | the locked part after the wait is the section that the protocol's recheck runs |
| Barriers.Barrier.RemoveThread | contrib/benchmark/src/mutex.h:114-118 | removal is the section that the protocol's removal step runs; the waiters are notified exactly if somebody has entered |
| Barriers.StepKeepsInv | contrib/benchmark/src/mutex.h:104-150 | every step keeps the counts of running and entered threads, and every waiter's saved phase at the current one or the one before |
| Barriers.PhaseSeparation | contrib/benchmark/src/mutex.h:104-150 | in every run, with any removals, no thread returns from its k-th wait before every thread not yet removed has made its k-th call |
| Barriers.OneLastPerPhase | contrib/benchmark/src/mutex.h:132-150 | the calls completed as last thread are as many as the phases, one per phase; the check never fails |
| Barriers.NoLostWakeUp | contrib/benchmark/src/mutex.h:110-142 | a sleeper whose predicate holds is owed a notify_all by another thread |
| Barriers.NeverStuck | contrib/benchmark/src/mutex.h:104-150 | when all living threads are inside, one of them can notify or leave |
| ThreadManagers.ThreadManager.NotifyThreadComplete | contrib/benchmark/src/thread_manager.h:25-31 | the thread is taken out of the barrier as the barrier's protocol does it, and out of the count as this protocol does it |
| ThreadManagers.ReturnsWhenAllComplete | contrib/benchmark/src/thread_manager.h:25-37 | a waiter returns only when every thread has completed |
| ThreadManagers.NoMissedWakeUp | contrib/benchmark/src/thread_manager.h:25-37 | although the decrement is outside the mutex: once all threads have completed, a worker that still has to notify is there for every waiter that sleeps or is about to, and a waiter that is awake returns when it gets the mutex |
| ThreadPools.UnboundedBlockingQueue.Put | seminars/2023/10-condition-variables/06-thread-pool.cpp:16-24 | refusal after closing, else appending, is the section that the protocol's submission runs |
| ThreadPools.UnboundedBlockingQueue.TryTake | seminars/2023/10-condition-variables/06-thread-pool.cpp:26-35 | one pass of taking, and what it leaves in the queue, is the section that the protocol's take runs |
| ThreadPools.UnboundedBlockingQueue.CloseImpl | seminars/2023/10-condition-variables/06-thread-pool.cpp:46-53 | closing is the section that the protocol's close runs; cancelling empties the queue besides |
| ThreadPools.AfterClosing | seminars/2023/10-condition-variables/06-thread-pool.cpp:16-53 | after closing nothing is accepted, and takers get what was queued, in order, then the end; after cancelling the end at once |
| ThreadPools.AcceptedInOrder | seminars/2023/10-condition-variables/06-thread-pool.cpp:16-35 | in every run exactly the tasks submitted before closing are accepted, and the queue holds the last of them in order |
| ThreadPools.NoLostWakeUp | seminars/2023/10-condition-variables/06-thread-pool.cpp:16-53 | if a taker sleeps, the queue is no longer than the number of notified takers; with tasks queued and any workers, some worker can go on |
| ThreadPools.EachTaskOnce | seminars/2023/10-condition-variables/06-thread-pool.cpp:77-99 | in every state each accepted task is queued, running in one thread, or finished once, and never two of these; no other task runs |
| ThreadPools.JoinMeansAllRun | seminars/2023/10-condition-variables/06-thread-pool.cpp:81-99 | when `Join` returns every task submitted before closing has run exactly once, if and only if the pool has workers or nothing was submitted |
| ThreadPools.JoinLosesTask | seminars/2023/10-condition-variables/06-thread-pool.cpp:70-88 | a run in which a pool without workers accepts a task, is joined, and never runs it |
| ThreadPools.JoinTerminates | seminars/2023/10-condition-variables/06-thread-pool.cpp:81-99 | once the queue is closed every step of a worker uses up work and nothing adds any |
| ThreadPools.JoinGoesOn | seminars/2023/10-condition-variables/06-thread-pool.cpp:81-99 | once the queue is closed some worker can go on until all have exited |
| Semaphores.Semaphore.Enter | tasks/condvars/semaphore/sema.h:26-43 | goes through, or queues a new signature, in the source's cases |
| Semaphores.Semaphore.Resume | tasks/condvars/semaphore/sema.h:31-40 | goes through exactly if its signature is at the front |
| Semaphores.StepsAreTheMethods | tasks/condvars/semaphore/sema.h:19-43 | the steps of the protocol do to the guarded fields what the methods do |
| Semaphores.StepKeepsInv | tasks/condvars/semaphore/sema.h:19-43 | every step keeps the queue of signatures the queue of waiting threads, and the count at least the number of notified ones |
| Semaphores.CountKept | tasks/condvars/semaphore/sema.h:9-43 | in every run the count is the initial count and the `Leave`s so far, less the threads that have gone through |
| Semaphores.NeverTooManyInside | tasks/condvars/semaphore/sema.h:19-43 | threads that have gone through exceed the `Leave`s by at most the initial count |
| Semaphores.CountAndOrder | tasks/condvars/semaphore/sema.h:19-43 | notified waiters never exceed the count, so it never goes negative; callbacks run in the order of first acquiring the mutex |
| Semaphores.TightIff | tasks/condvars/semaphore/sema.h:28-39 | from a state in which no waiter sleeps that the count would let in, one step breaks this if and only if it enters past woken waiters or hands a notification on to nobody |
| Semaphores.MendedIff | tasks/condvars/semaphore/sema.h:19-43 | once broken, a step mends it if and only if it is a `Leave` that finds the last sleeper |
| Semaphores.TightUnlessUnmended | tasks/condvars/semaphore/sema.h:19-43 | in every run, after n steps a waiter sleeps that the count would let in if and only if an earlier step left one behind and no `Leave` has mended it since |
| Semaphores.AllTightIff | tasks/condvars/semaphore/sema.h:19-43 | along every run it holds in all states up to n if and only if no step before n leaves a waiter behind |
| Semaphores.LeftBehindIff | tasks/condvars/semaphore/sema.h:26-43 | in every run, when nobody is notified, a waiter sleeps on although the count is positive if and only if a step left one behind and nothing mended it |
| Semaphores.QuietServesAllIff | tasks/condvars/semaphore/sema.h:19-43 | when a run goes quiet, as many threads have gone through as have arrived and the count allows, if and only if no waiter is left behind |
| Semaphores.StuckUntilLeave | tasks/condvars/semaphore/sema.h:19-43 | and from then on nobody gets in, newcomers included, until somebody calls `Leave` |
| Semaphores.TightMeansProgress | tasks/condvars/semaphore/sema.h:19-43 | while that holds, a positive count and a queue mean that some waiter is awake |
| Semaphores.WaiterLeftBehind | tasks/condvars/semaphore/sema.h:31-39 | a run that ends with count one, one sleeping waiter and nobody notified |
| Latches.NoBucketSkippedIff | seminars/2023/10-condition-variables/03-latch.cpp:63-68 | the stride moves on by at most one bucket if and only if there are at most as many threads as terms in a bucket |
| Latches.TermsExactly | seminars/2023/10-condition-variables/03-latch.cpp:63-69 | the terms of a worker in a bucket are exactly those of its residue in that bucket, each once, in order |
| Latches.State.Worker | seminars/2023/10-condition-variables/03-latch.cpp:61-72 | a worker arrives once at every latch and adds all its terms to its own slots and to no other |
| Latches.ArrivesOnce | seminars/2023/10-condition-variables/03-latch.cpp:65-71 | in every interleaving a worker has arrived at a latch once if it has passed the bucket, and not at all before |
| Latches.WaitMeansComplete | seminars/2023/10-condition-variables/03-latch.cpp:82-85 | when `Wait` returns for a bucket, every slot of it holds exactly the terms of its worker |
| Latches.EveryTermOnce | seminars/2023/10-condition-variables/03-latch.cpp:63-85 | and so every term of the bucket is in one slot, once, and in no other slot, and nothing else is |
| Latches.NeverStuck | seminars/2023/10-condition-variables/03-latch.cpp:18-29 | in every state a worker can go on, or the main thread is done or awake and about to pass its latch |
| Statuses.DecodeEncode | tasks/bonus/solve-or-die/status.h:823-851 | inlined codes, the moved-from mark and pointers share one word without ambiguity |
| Statuses.LiveIffHeld | tasks/bonus/solve-or-die/status.cc:193-202 | a rep exists exactly while some handle points to it, and counts those handles |
| Statuses.ShareKeepsInv | tasks/bonus/solve-or-die/status.h:740-742 | sharing a rep keeps the ownership invariant and every other handle's value |
| Statuses.DropKeepsInv | tasks/bonus/solve-or-die/status.h:780-782 | dropping a handle frees its rep exactly if it was the last, and keeps every other value |
| Statuses.StatusHeap.Construct | tasks/bonus/solve-or-die/status.cc:204-208 | a status with the given code and message, which a code of OK drops; no rep unless there is a message to keep |
| Statuses.StatusHeap.CopyConstruct | tasks/bonus/solve-or-die/status.h:740-742 | a new handle with the same value; no other value changes |
| Statuses.StatusHeap.MoveConstruct | tasks/bonus/solve-or-die/status.h:754-756 | the value passes to the new handle, the old one is moved-from, no count changes |
| Statuses.StatusHeap.CopyAssign | tasks/bonus/solve-or-die/status.h:744-752 | the target takes the source's value; no other value changes |
| Statuses.StatusHeap.MoveAssign | tasks/bonus/solve-or-die/status.h:758-766 | the value passes over and the source becomes moved-from, unless both share a rep, when nothing changes |
| Statuses.StatusHeap.Swap | tasks/bonus/solve-or-die/status.h:810-813 | two values change places and no count changes |
| Statuses.StatusHeap.Destroy | tasks/bonus/solve-or-die/status.h:780-782 | exactly the one handle goes |
| Statuses.StatusHeap.PrepareToModify | tasks/bonus/solve-or-die/status.cc:222-242 | afterwards the handle alone holds its rep, with its old value, less the message of a moved-from status, and no other value has changed |
| Statuses.StatusHeap.SetPayload | tasks/bonus/solve-or-die/status.cc:122-140 | one payload of one handle is set, none if it is OK, and a moved-from status becomes one without a message; all other handles keep their values |
| Statuses.StatusHeap.ErasePayload | tasks/bonus/solve-or-die/status.cc:142-158 | true exactly if the payload was there; it goes from this handle only, and a status that can be inlined is inlined again |
| Statuses.FoundMeansEqual | tasks/bonus/solve-or-die/status.cc:254-281 | if every payload of the list that is not shorter is found in the other, the two maps are equal, by counting |
| Statuses.SamePayloads | tasks/bonus/solve-or-die/status.cc:254-281 | the two loops decide equality of the payload maps although order differs and sizes may differ by one |
| Statuses.StatusHeap.Equals | tasks/bonus/solve-or-die/status.h:794-796 | `==` holds if and only if the abstract values agree |
| Statuses.VisibleEquality | tasks/bonus/solve-or-die/status.cc:244-282 | values agree if and only if code, message and payloads do, except exactly when one of two alike statuses is moved-from |
| Statuses.MovedFromImitated | tasks/bonus/solve-or-die/status.h:788-796 | the exception arises: a moved-from status and one built to look like it compare different |
| HashMaps.ConcurrentHashMap.constructor | tasks/baby-threads/hash-table/concurrent_hash_map.h:21-25 | an empty map with as many buckets as locks |
| HashMaps.ConcurrentHashMap.Find | tasks/baby-threads/hash-table/concurrent_hash_map.h:71-80 | lookup in the represented map |
| HashMaps.ConcurrentHashMap.Insert | tasks/baby-threads/hash-table/concurrent_hash_map.h:27-41 | adds exactly the missing key; there are three times the buckets exactly if the load would exceed three entries per bucket; and the keys, bucket by bucket, are what the concurrent protocol's storing and rehashing make of them |
| HashMaps.ConcurrentHashMap.Erase | tasks/baby-threads/hash-table/concurrent_hash_map.h:43-56 | removes exactly the key and says whether it was there; bucket by bucket, as the concurrent protocol does |
| HashMaps.ConcurrentHashMap.Clear | tasks/baby-threads/hash-table/concurrent_hash_map.h:58-69 | empties the map and keeps the buckets |
| HashMaps.ConcurrentHashMap.Rehash | tasks/baby-threads/hash-table/concurrent_hash_map.h:98-114 | three times the buckets, every entry in its new bucket, the same map and size; bucket by bucket, as the concurrent protocol does |
| HashMapLocks.SameBucketSameStripe | tasks/baby-threads/hash-table/concurrent_hash_map.h:31-33 | keys that share a bucket share a mutex when the buckets are a multiple of the locks |
| HashMapLocks.StepKeepsInv | tasks/baby-threads/hash-table/concurrent_hash_map.h:27-114 | every step keeps lock ownership and the bucket count at the locks times a power of three |
| HashMapLocks.NoRaces | tasks/baby-threads/hash-table/concurrent_hash_map.h:27-114 | in every interleaving no two threads are in one bucket, and while one has the whole table no other is in a bucket or has the table |
| HashMapLocks.NeverDeadlocked | tasks/baby-threads/hash-table/concurrent_hash_map.h:58-69 | mixing one-lock operations and ascending all-lock operations never blocks everybody |
| HashMapRuns.SpreadKeeps | tasks/baby-threads/hash-table/concurrent_hash_map.h:102-110 | moving the buckets into a larger table keeps the entries, their number and their being unique, each in its new bucket |
| HashMapRuns.MoveKeepsData | tasks/baby-threads/hash-table/concurrent_hash_map.h:27-114 | every move of every thread keeps entries in their buckets and the counter right but for changes not yet counted; and it makes a key occur twice exactly if it stores one that is there |
| HashMapRuns.EntriesInPlace | tasks/baby-threads/hash-table/concurrent_hash_map.h:27-114 | in every interleaving each entry is in the bucket of its hash, and outside critical sections the counter is the number of entries |
| HashMapSet.HeldIffLate | tasks/baby-threads/hash-table/concurrent_hash_map.h:27-41 | while an insertion is between looking and storing, its key is in the table if and only if another thread has stored it since this one looked, and nobody has erased it or cleared the map again |
| HashMapSet.UniqueIff | tasks/baby-threads/hash-table/concurrent_hash_map.h:27-41 | in every run no key occurs twice up to a state if and only if no insertion before it stores a key that another thread has stored, and nobody taken out again, since this one looked |
| HashMapSet.UniqueWhenApart | tasks/baby-threads/hash-table/concurrent_hash_map.h:27-41 | what a caller has to see to: if no two insertions of one key are between looking and storing at once, no key ever occurs twice |
| HashMapSet.HeldAfter | tasks/baby-threads/hash-table/concurrent_hash_map.h:27-114 | as long as keys are unique, the keys held change only by storing, erasing and clearing, and by exactly that key or all of them |
| HashMapSet.AnswersOfOneSet | tasks/baby-threads/hash-table/concurrent_hash_map.h:27-80 | up to a state all operations answer as one set of keys would, each at one moment of its call, if and only if no insertion stores its key too late |
| HashMapSet.AnswersWhenApart | tasks/baby-threads/hash-table/concurrent_hash_map.h:27-80 | and so they do whenever insertions of one key keep apart |
| HashMapRuns.SameKeyTwice | tasks/baby-threads/hash-table/concurrent_hash_map.h:27-41 | for any key and hash, a run of two insertions that leaves the key twice and counted twice |
| ArgsProducts.DigitsFromDigits | contrib/benchmark/src/benchmark_register.cc:321-340 | every tuple of indices is the mixed-radix digits of a number below the product of the lengths |
| ArgsProducts.FromDigitsDigits | contrib/benchmark/src/benchmark_register.cc:321-340 | and of only one such number |
| ArgsProducts.DigitAt | contrib/benchmark/src/benchmark_register.cc:336-339 | digit k of i is i divided by the product of the lengths before k, modulo length k |
| ArgsProducts.TurnCounts | contrib/benchmark/src/benchmark_register.cc:336-339 | one turn of the odometer takes the digits of i to the digits of i + 1 |
| ArgsProducts.Advance | contrib/benchmark/src/benchmark_register.cc:336-339 | the do-while loop is one turn of the odometer |
| ArgsProducts.Benchmark.ArgsProduct | contrib/benchmark/src/benchmark_register.cc:317-343 | fails exactly on an arity clash; keeps the previous entries and appends as many as the product of the lengths, component k of the i-th being the value of list k at the k-th mixed-radix digit of i, in closed form |
| ArgsProducts.EveryTupleOnce | contrib/benchmark/src/benchmark_register.cc:329-340 | for each choice of one place per list exactly one new entry is for that choice, and it holds the values at those places |
| AddRanges.AddPowers | contrib/benchmark/src/benchmark_register.h:13-35 | without overflow, appends in order exactly the powers in the closed interval |
| AddRanges.AddNegatedPowers | contrib/benchmark/src/benchmark_register.h:37-55 | the same for negated powers, negated and reversed in the tail only |
| AddRanges.AddRange | contrib/benchmark/src/benchmark_register.h:57-102 | without overflow, keeps the prefix and appends a sorted list of exactly lo, hi, 0 if in range and the signed powers strictly between; strictly increasing if and only if not (lo is 0 and hi at least 2) |
| Reduces.FoldApart | tasks/baby-threads/reduce/reduce.h:35-38 | a non-empty part may be folded by itself first, given associativity and a left identity |
| Reduces.NoEmptyChunk | tasks/baby-threads/reduce/reduce.h:17-31 | with at most as many threads as the square root of the length every chunk starts before the end, and the chunks reach it |
| Reduces.Spawn | tasks/baby-threads/reduce/reduce.h:29-44 | the chunks partition the input and none is empty |
| Reduces.RunAll | tasks/baby-threads/reduce/reduce.h:32-47 | whatever the order of the threads, slot j ends up with the fold of chunk j |
| Reduces.Reduce | tasks/baby-threads/reduce/reduce.h:8-56 | for every associative function with a left identity, the sequential fold; and whatever the function, the initial value for nothing and the only element for one |

## Left out

- Floating point: quantisers, coefficients and pixels are integers; the inverse DCT, FFTW and `ToRGB` are not modelled (`ToRGB` is a parameter of `ConstructImage`). `Latches` keeps the terms of a sum instead of their square roots.
- JPEG header parsing apart from `ReadStats`, and comments; the header's bytes are parameters of `ReadStats`.
- Scanning.JpegReader.CheckEnd: the two reads in `GetHalfWord`, whose order C++ leaves open, are taken from left to right.
- FrameStats.Stats.ReadStats: one frame header per stream; what happens after an empty channel has been touched is undefined in the source and not modelled; nothing is said about the picture if luma does not have the largest factors.
- Layouts.LumaIsOwn: only for luma at the largest factors and 1x1 chroma.
- Scanning.JpegReader.Scan: `last_dcs` is an unbounded integer, not an `int`; the tables it needs are taken to be present, as the header check leaves them.
- Scanning.JpegReader.ScanEncoded: the scan starts on a byte boundary and every 0xFF of the data is stuffed.
- Barriers.PhaseSeparation: `phase_number_` and the thread counts are unbounded; memory order and time are not modelled, mutex sections and atomics are single steps.
- Semaphores.CountAndOrder: assumes the default callback, a count that starts at zero or above, and no spurious wake-ups, because `Enter` does not look at the count again; signatures do not wrap.
- Semaphores.NeverTooManyInside: a `Leave` may be called by any thread, as in the code; who is inside is meaningful if only threads inside call it.
- ThreadPools.EachTaskOnce: the pool never calls `Cancel`, which is only in the queue's class; tasks do not throw.
- ThreadPools.JoinTerminates: an order on the remaining work, not a fairness statement about the scheduler.
- HashMaps.ConcurrentHashMap.Insert: as a map operation only when run sequentially. `Insert` checks and pushes in two critical sections, so unique keys are not claimed under concurrency (`HashMapSet.UniqueIff`).
- HashMapLocks.NeverDeadlocked: says that somebody can always go on, not that each thread gets its turn.
- HashMapRuns.EntriesInPlace: entries without their values; an all-lock operation may start at any time, which includes every outcome of the check of `size_` against `bucket_cnt_` outside the locks; what `Clear` and `Rehash` do under all locks is one step.
- Statuses.StatusHeap.Construct: the address of a new rep is a parameter, even and not in use; codes are naturals; `MapToLocalCode`, `Update`, `StatusOr`, printing and `ForEachPayload` order are not modelled, nor are counts changed by several threads at once.
- ArgsProducts.Benchmark.ArgsProduct: `size_t` overflow of the product, and the empty list of lists, for which the code indexes an empty vector.
- Reduces.Reduce: `hardware_concurrency()` is at least 1 and the square root is exact; iterators are positions, so that stepping one past the end of the container is just a number.
- Latches.WaitMeansComplete: between one thread and a bucketful of threads, and a limit that is a positive multiple of the bucket size, as the program has it.
- Duplicate copies of these algorithms (`jpeg-decoder/faster`, `jpeg-decoder/huffman`, other years' seminars, the hash map inside `subset-sum`), stubs and demonstrations, and the benchmark library's reporters, timers, flags and statistics.
