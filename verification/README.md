# Rings, reciprocals, lock words and kernels: a verified model

A Dafny model of the library code that carries data and synchronises threads in this port of
Linux drivers to seL4, and of the UART driver built on it, with proofs of what that code is for.

- **`Kfifo.dfy`, `KfifoUser.dfy`, `KfifoRecord.dfy`, `KfifoSgl.dfy`, `KfifoRecordSgl.dfy`** model the kfifo ring: a
  power-of-two buffer whose 32-bit `in` and `out` indices run freely and wrap.  The ring is a class
  whose methods update the indices and the byte array in place.  `Contents()` is the abstract
  value; on it sit the user-copy layer with partial faults, the length-prefixed record
  layer (a queue of byte strings, `Records.dfy`), and the scatter-gather layer of both.
- **`KfifoRuns.dfy`** runs any number of calls on one ring and shows that every answer is the
  answer of a bounded sequence of elements, or of a queue of records.
- **`Spsc.dfy`** takes the same ring apart into atomic steps: one producer and one consumer
  interleave, each with a stale view of the other's index.
- **`Uart16550.dfy`** puts two such rings under any number of reader and writer threads and one
  interrupt handler, and shows that every step of the driver is a step of the lock-free protocol on
  each ring, or none.  **`Uart16550Calls.dfy`** says what whole reads, writes and interrupts come to.
- **`Div64.dfy`** models division by a constant through multiplication with a reciprocal;
  `Reciprocals.dfy` says when such a multiplication is exact.
- **`MutexXchg.dfy`, `Qrwlock.dfy`, `Rwsem.dfy`** model lock words shared by any number of threads
  (`Threads.dfy` counts the threads in a phase).
- **`WordAtATime.dfy`** models the search for the first zero byte of a word, **`XorBlocks.dfy`** the
  RAID-5 parity kernels.
- **`Machine.dfy`, `Rings.dfy`** hold machine arithmetic (truncation, binary digits, powers of two) and
  circular copies.

What is proved about runs is proved for every interleaving and every length.  Memory is sequentially
consistent, as the barriers in the code ask for.  A few expectations turn out to be false of the code as it
stands; each is proved to hold exactly under a condition the caller can check:

- `__kfifo_init` rounds the element count up, so the ring stays inside the caller's buffer if and
  only if the count is a power of two (`KfifoCore.Kfifo.Init`, `KfifoCore.ThreeElements`).  The comment at
  `fifo.c:43-46` speaks of rounding down; the code rounds up, and the model with it.
- `__kfifo_in_r` does not compare the length with the header, so the record is read back if and
  only if its length fits the header (`KfifoRecord.InR`, `Records.LongBody`).
- `__kfifo_skip_r` does not look whether there is a record, so the ring survives if and only if it was
  not empty (`KfifoRecord.SkipR`).
- The user-copy layer rounds the missing bytes up in `unsigned long`; on a 32-bit machine the
  number of missing elements is right if and only if `missing + esize - 1` does not wrap
  (`KfifoUser.DivRoundUpExact`, `KfifoUser.WrappedFault`).  A caller is safe from every fault if and
  only if one element more than asked for would still fit 2^32 bytes (`KfifoUser.SpareElement`).
- `setup_sgl` goes on behind the entries its first piece took without looking whether the list has
  more.  A list shorter than `nents` is left if and only if the part of the ring wraps and its first
  piece needs all entries, or there are none (`KfifoSgl.SetupSgl`, `KfifoSgl.ShortList`).
- `__kfifo_dma_out_prepare_r` compares the length with the whole ring, so a device stays inside the head
  record if and only if the clamped length does (`KfifoRecordSgl.DmaOutPrepareR`,
  `KfifoRecordSgl.NextHeader`).

## Model

| member | source | states |
|---|---|---|
| `Div64.ArchXprod64` | libs/liblinux/liblinux_include/asm-generic/div64.h:160-194 | for all 64-bit m and n and both biases, the four 32-bit partial products under wrapping arithmetic, with both shortcut paths and both carry paths, give the biased 128-bit product divided by 2^64 |
| `Div64.ReciprocalUp` | libs/liblinux/liblinux_include/asm-generic/div64.h:68-73 | the two 64-bit steps produce the least m with m * b >= p * 2^64, although p * 2^64 does not fit a word |
| `Div64.ReciprocalDown` | libs/liblinux/liblinux_include/asm-generic/div64.h:104-106 | the same for the greatest m with m * b <= p * 2^64 |
| `Div64.Probe` | libs/liblinux/liblinux_include/asm-generic/div64.h:78-85 | the macro's own high product with one carry equals m * x / 2^64 / p |
| `Reciprocals.ProbeMeansSmallError` | libs/liblinux/liblinux_include/asm-generic/div64.h:75-85 | the rounded-up reciprocal is right at the probe if and only if its error times the largest quotient stays below the multiplier |
| `Reciprocals.RoundedUpExact` | libs/liblinux/liblinux_include/asm-generic/div64.h:71-85 | under that bound the rounded-up reciprocal divides every 64-bit number exactly |
| `Reciprocals.RoundedDownExact` | libs/liblinux/liblinux_include/asm-generic/div64.h:94-106 | under the complementary bound the rounded-down biased reciprocal divides every 64-bit number exactly |
| `Div64.ProbeDecides` | libs/liblinux/liblinux_include/asm-generic/div64.h:68-106 | one dividend decides for all: right at the probe if and only if right for every 64-bit dividend; wrong there, the rounded-down biased reciprocal is right for every dividend |
| `Reciprocals.SpecialExact` | libs/liblinux/liblinux_include/asm-generic/div64.h:88-93 | a divisor of 2^64 - 1 has an exact biased reciprocal |
| `Div64.SpecialStrategy` | libs/liblinux/liblinux_include/asm-generic/div64.h:88-93 | the special strategy divides exactly by b through its odd part |
| `Div64.BestReduction` | libs/liblinux/liblinux_include/asm-generic/div64.h:113-128 | the `___bits` word is zero only if no exact shift avoids the overflow bits; otherwise its highest digit is the largest exact shift that does |
| `Div64.Reduce` | libs/liblinux/liblinux_include/asm-generic/div64.h:107-131 | m and p are divided by the same power of two, only zeros are shifted out, p stays positive, the overflow bits are cleared whenever an exact shift can clear them, and the shift is the largest such, or else the largest exact one |
| `Div64.ReductionKeepsQuotient` | libs/liblinux/liblinux_include/asm-generic/div64.h:122-146 | the reduced pair computes the same quotient for every dividend |
| `Div64.Div64Const32` | libs/liblinux/liblinux_include/asm-generic/div64.h:54-147 | for every 64-bit n and every 32-bit b that is not zero and not a power of two, all three strategies return exactly n / b |
| `Div64.DoDiv` | libs/liblinux/liblinux_include/asm-generic/div64.h:204-226 | quotient and remainder for every dividend and nonzero divisor on every inline path; the out-of-line call is taken exactly for a variable divisor and a dividend above 32 bits |
| `KfifoCore.RoundupLeast` | libs/liblinux/src/fifo.c:43-49 | rounding gives the least power of two not below the size |
| `KfifoCore.RoundupFits` | libs/liblinux/src/fifo.c:85-98 | the rounded ring has the bytes of the caller's buffer if and only if the count is a power of two |
| `KfifoCore.ThreeElements` | libs/liblinux/src/fifo.c:85-98 | the smallest count for which it does not |
| `KfifoCore.MaskedSlot` | libs/liblinux/src/fifo.c:111 | masking a free-running index is taking whole rounds off it |
| `KfifoCore.Kfifo.Unused` | libs/liblinux/src/fifo.c:35-38 | the unsigned expression is capacity minus live elements, wrapped indices or not |
| `KfifoCore.Kfifo.Alloc` | libs/liblinux/src/fifo.c:40-68 | an empty ring of the rounded-up size, or EINVAL for one element, or ENOMEM, both without a buffer; valid exactly on success |
| `KfifoCore.Kfifo.Init` | libs/liblinux/src/fifo.c:82-101 | over a caller's buffer the ring stays inside if and only if the element count is a power of two, and is valid if and only if it also leaves no byte over |
| `KfifoCore.Kfifo.CopyIn` | libs/liblinux/src/fifo.c:104-126 | the two pieces are one circular store of the bytes |
| `KfifoCore.Kfifo.CopyOut` | libs/liblinux/src/fifo.c:143-165 | the two pieces are one circular fetch, and the rest of the destination is untouched |
| `KfifoCore.Kfifo.In` | libs/liblinux/src/fifo.c:128-140 | appends as many whole elements as fit and keeps the ring valid across index wrap-around |
| `KfifoCore.Kfifo.OutPeek` | libs/liblinux/src/fifo.c:167-178 | delivers the oldest elements, changes nothing |
| `KfifoCore.Kfifo.Out` | libs/liblinux/src/fifo.c:181-187 | delivers and removes the oldest elements |
| `KfifoRuns.Run` | libs/liblinux/src/fifo.c:104-187 | every run of in, out and peek calls, of any length, answers call by call like a bounded sequence of elements and leaves the ring holding that sequence |
| `KfifoRuns.AllocateAndRun` | libs/liblinux/src/fifo.c:40-187 | the same from allocation on, starting from the empty sequence bounded by the rounded-up size |
| `KfifoRuns.RunConserves` | libs/liblinux/src/fifo.c:128-187 | over every run what was there and what the calls report as put in is what they delivered and what is there, byte by byte and in order |
| `KfifoUser.DivRoundUpExact` | libs/liblinux/src/fifo.c:207-214 | the rounded-up quotient is right if and only if its numerator does not wrap, and is zero when it does |
| `KfifoUser.WrappedFault` | libs/liblinux/src/fifo.c:207-214 | a ring of two elements of 2^31 - 1 bytes, none of which arrives: the fault is rounded to zero missing elements |
| `KfifoUser.SpareElement` | libs/liblinux/src/fifo.c:207-214 | no fault in a transfer can wrap if and only if one element more would still fit 2^32 bytes |
| `KfifoUser.WholeIsQuotient` | libs/liblinux/src/fifo.c:233-234 | the number of whole elements asked for is the quotient of the division |
| `KfifoUser.WholeElements` | libs/liblinux/src/fifo.c:207-222 | what is left is exactly the whole elements among the bytes that arrived |
| `KfifoUser.MissingIs` | libs/liblinux/src/fifo.c:207-214 | nothing is missing if and only if no piece faults; otherwise what is not missing is what arrived before the first fault |
| `KfifoUser.CopyInFromUser` | libs/liblinux/src/fifo.c:190-223 | with a fault in either piece, what was stored, how many elements are missing, how many bytes count |
| `KfifoUser.FromUser` | libs/liblinux/src/fifo.c:225-248 | the ring grows by exactly the whole elements that arrived, the reported bytes are theirs, EFAULT is returned as the rounded fault says, and under every fault, also one that wraps, the live elements stay in front |
| `KfifoUser.CopyOutToUser` | libs/liblinux/src/fifo.c:251-283 | the user gets exactly the bytes before the fault |
| `KfifoUser.ToUser` | libs/liblinux/src/fifo.c:285-307 | the ring shrinks by exactly the whole elements delivered; a partial element stays |
| `KfifoSgl.SetupSglBuf` | libs/liblinux/src/fifo.c:310-347 | the segments, flattened, are a prefix of the physical bytes of the buffer, all of them unless `nents` or the list is used up; their number is exactly one more than the physical discontinuities; neighbours are physically apart; the page loop terminates |
| `KfifoSgl.SetupSgl` | libs/liblinux/src/fifo.c:349-369 | the same for a ring range across the end of the buffer; the list is left if and only if it is shorter than `nents` and the first piece takes all of it before a second |
| `KfifoSgl.GuardExact` | libs/liblinux/src/fifo.c:329 | the 32-bit loop guard compares rightly if and only if its right-hand side does not wrap |
| `KfifoSgl.ShortList` | libs/liblinux/src/fifo.c:365-366 | a list of one entry, offered as two, that is left |
| `KfifoSgl.DmaInPrepare` | libs/liblinux/src/fifo.c:371-381 | the segments name free cells from the one `in` points to on, as many as asked for and free |
| `KfifoSgl.DmaInFinish` | libs/liblinux/liblinux_include/linux/kfifo.h:682-692 | end to end: what a device wrote through those segments is appended, as whole elements, to what was live before, provided no two bytes of the buffer share a physical address |
| `KfifoSgl.DmaOutPrepare` | libs/liblinux/src/fifo.c:384-394 | a device reading through the segments reads the oldest live bytes, all that were asked for unless the list is full |
| `Records.DecodeEncode` | libs/liblinux/src/fifo.c:413-464 | a queue of bodies that fit the header is read back as it was written |
| `Records.EncodeDecode` | libs/liblinux/src/fifo.c:413-464 | a string of whole records is determined by its records |
| `Records.HeaderBytes` | libs/liblinux/src/fifo.c:407-445 | the low byte of the header comes first |
| `Records.AppendRecord` | libs/liblinux/src/fifo.c:453-464 | header and body behind whole records are one more record if and only if the length fits the header |
| `Records.LongBody` | libs/liblinux/src/fifo.c:453-464 | 256 bytes behind a one-byte header are not read back |
| `KfifoRecord.MaxR` | libs/liblinux/src/fifo.c:397-404 | the smaller of the length and the largest a header holds |
| `KfifoRecord.PeekN` | libs/liblinux/src/fifo.c:413-425 | the header at `out`, also when it straddles the end of the buffer |
| `KfifoRecord.PokeN` | libs/liblinux/src/fifo.c:436-445 | the header is stored as one circular store behind the live bytes |
| `KfifoRecord.LenR` | libs/liblinux/src/fifo.c:447-450 | the length of the head record |
| `KfifoRecord.InR` | libs/liblinux/src/fifo.c:453-464 | appends one record or does nothing when it does not fit; it is that record if and only if its length fits the header |
| `KfifoRecord.OutCopyR` | libs/liblinux/src/fifo.c:467-477 | delivers a prefix of the head record and reports its length |
| `KfifoRecord.OutPeekR` | libs/liblinux/src/fifo.c:479-488 | a prefix of the head record, or nothing from an empty queue |
| `KfifoRecord.OutR` | libs/liblinux/src/fifo.c:491-502 | delivers a prefix of the head record and drops the whole record |
| `KfifoRecord.SkipR` | libs/liblinux/src/fifo.c:505-511 | drops the head record; the ring stays valid if and only if there was one |
| `KfifoRecord.FromUserR` | libs/liblinux/src/fifo.c:514-535 | all or nothing: one record of the clamped length, or an unchanged queue on a fault or lack of room |
| `KfifoRecord.ToUserR` | libs/liblinux/src/fifo.c:538-560 | all or nothing: a prefix delivered and the record dropped, or the head record left in place on a fault; an empty queue leaves the user's buffer alone |
| `KfifoRecordSgl.DmaInPrepareR` | libs/liblinux/src/fifo.c:563-574 | segments for a body of the clamped length behind the place of its header, or none when the record does not fit |
| `KfifoRecordSgl.DmaInFinishR` | libs/liblinux/src/fifo.c:577-583 | end to end: what a device wrote through those segments is one more record of the queue |
| `KfifoRecordSgl.PartOfHead` | libs/liblinux/src/fifo.c:586-597 | the bytes behind the first header are a part of the head record if and only if they are no more than it has |
| `KfifoRecordSgl.NextHeader` | libs/liblinux/src/fifo.c:586-597 | two bytes asked for of a record of one: the second is the next header |
| `KfifoRecordSgl.DmaOutPrepareR` | libs/liblinux/src/fifo.c:586-597 | a device reads exactly the bytes behind the header, inside the head record if and only if the clamped length is; none when the ring holds less |
| `KfifoRecordSgl.DmaOutFinishR` | libs/liblinux/src/fifo.c:600-606 | drops the head record; the ring stays valid if and only if there was one |
| `KfifoRuns.RunRecords` | libs/liblinux/src/fifo.c:413-511 | every run of in_r, out_r, peek_r, len_r and skip_r answers like a queue of byte strings bounded by its encoding, and keeps the ring a concatenation of whole records |
| `KfifoRuns.AllocateAndRunRecords` | libs/liblinux/src/fifo.c:40-511 | the same from allocation on |
| `KfifoRuns.RecordsConserved` | libs/liblinux/src/fifo.c:413-511 | over every run the records stored and those removed or left are the same, in order |
| `Spsc.NextKeepsInv` | libs/liblinux/src/fifo.c:104-187 | every atomic step of producer or consumer, in any interleaving, keeps the indices the truncated stream positions and every live slot the right element |
| `Spsc.InvNoRace` | libs/liblinux/src/fifo.c:104-187 | a slot the producer may still write is never one the consumer may still read |
| `Spsc.RunIsAQueue` | libs/liblinux/src/fifo.c:104-187 | in every state of every run what was produced is what was consumed followed by the live elements, at most a ring full, and there is no race |
| `Spsc.SoloIn` | libs/liblinux/src/fifo.c:128-140 | from every state of a run, a producer left alone can go on to publish as much of its buffer as fits, and then it has |
| `Spsc.SoloOut` | libs/liblinux/src/fifo.c:181-187 | from every state of a run, a consumer left alone can go on to take the oldest elements, as many as it asked for and there are |
| `Uart16550.ReadLocks` | apps/module-loader/src/uart16550.c:93-100 | each step of a read keeps both lock words equal to the number of threads inside, at most one |
| `Uart16550.WriteLocks` | apps/module-loader/src/uart16550.c:143-150 | the same for a write |
| `Uart16550.ExclusiveEnter` | libs/liblinux/src/lock.c:5-13 | the compare-and-exchange of a free lock lets exactly one thread in |
| `Uart16550.ExclusiveLeave` | libs/liblinux/liblinux_include/asm-generic/qspinlock.h:111-117 | unlocking finds the word at one and leaves nobody inside |
| `Uart16550.ReadInCopy` | apps/module-loader/src/uart16550.c:98 | a thread in `kfifo_out` makes the consumer's steps of the lock-free protocol on the input ring |
| `Uart16550.WriteInCopy` | apps/module-loader/src/uart16550.c:148 | a thread in `kfifo_in` makes the producer's steps on the output ring |
| `Uart16550.HandlerOnOutput` | apps/module-loader/src/uart16550.c:244-256 | the handler's send loop makes the consumer's steps on the output ring |
| `Uart16550.HandlerOnInput` | apps/module-loader/src/uart16550.c:258-271 | the handler's receive loop makes the producer's steps on the input ring, and a dropped byte leaves no trace in it |
| `Uart16550.NextMovesRings` | apps/module-loader/src/uart16550.c:75-278 | every step of any thread or of the handler moves each ring by a step of the lock-free protocol or not at all |
| `Uart16550.InitInv` | apps/module-loader/src/uart16550.c:288-297 | the initialised device satisfies the invariant |
| `Uart16550.NextKeepsInv` | apps/module-loader/src/uart16550.c:75-278 | every step keeps mutual exclusion, both rings' invariants and the drop discipline |
| `Uart16550.OutgoingInOrder` | apps/module-loader/src/uart16550.c:143-150 | over every run the bytes given to the device, the byte in the handler's hand and the bytes in the ring are together exactly the accepted prefixes of all writes, in order |
| `Uart16550.IncomingInOrder` | apps/module-loader/src/uart16550.c:258-271 | over every run the bytes read from the receive register are those stored or dropped, followed by the byte in flight, and the stored ones are exactly the bytes taken by reads followed by the bytes in the ring, in order |
| `Uart16550.DroppedExactlyWhenFull` | apps/module-loader/src/uart16550.c:261-266 | the step that settles a byte drops it if and only if the ring is full at that moment |
| `Uart16550.FateIsRecorded` | apps/module-loader/src/uart16550.c:261-270 | a byte counts as dropped or stored exactly when it is, and the register log is complete at that moment |
| `Uart16550.AtMostOneDropped` | apps/module-loader/src/uart16550.c:263-266 | an interrupt drops at most one byte, and it is the last byte that interrupt read from the register |
| `Uart16550.OneThreadPerSide` | apps/module-loader/src/uart16550.c:93-100 | at most one thread is in each critical section and no ring slot is read while it may be written |
| `Uart16550Calls.RunOutcomes` | apps/module-loader/src/uart16550.c:75-278 | in every run each step comes to what it should, whatever happens in between: a thread keeps its request until it is inside, gets inside exactly when nobody is, reads min(size, waiting) of the oldest bytes or accepts min(size, room) of its own, and returns what it logs; the handler sends the oldest byte, and stores or drops what it received |
| `Uart16550Calls.SoloRead` | apps/module-loader/src/uart16550.c:93-111 | a read that nobody interferes with can run to its end, returns the oldest bytes, as many as it asked for and there are, removes exactly those and touches nothing else |
| `Uart16550Calls.SoloWrite` | apps/module-loader/src/uart16550.c:143-159 | a write that nobody interferes with can run to its end, appends the front of its bytes, as many as there is room for, and reports that number |
| `Uart16550Calls.SoloInterrupt` | apps/module-loader/src/uart16550.c:242-271 | an interrupt that nobody interferes with sends the k oldest bytes when the device takes k, and stores as many of the received bytes as there is room for; the first that finds the ring full ends it |
| `MutexXchg.NextKeepsInv` | libs/liblinux/liblinux_include/asm-generic/mutex-xchg.h:25-118 | every exchange of every thread keeps holders plus free at one, and keeps every failed locker covered |
| `MutexXchg.HoldersPlusFreeIsOne` | libs/liblinux/liblinux_include/asm-generic/mutex-xchg.h:25-72 | in every run the number of holders plus one if the count is 1 is one; never two holders |
| `MutexXchg.NoLostWakeup` | libs/liblinux/liblinux_include/asm-generic/mutex-xchg.h:25-53 | while a failed locker has not been followed by an unlock that called `fail_fn`, the count is -1 or some thread is between its exchanges, and that thread's next step leaves -1 |
| `MutexXchg.HolderWillWake` | libs/liblinux/liblinux_include/asm-generic/mutex-xchg.h:67-72 | once nobody is between exchanges there is exactly one holder, and its unlock does call `fail_fn` |
| `MutexXchg.QuietUnlockStrandsNobody` | libs/liblinux/liblinux_include/asm-generic/mutex-xchg.h:91-118 | an unlock that does not call `fail_fn` while a locker waits leaves a thread that owes the count a -1 |
| `MutexXchg.FailedIsMarked` | libs/liblinux/liblinux_include/asm-generic/mutex-xchg.h:28-35 | a locker that fails has left the count at -1 and is pending |
| `MutexXchg.PendingMeans` | libs/liblinux/liblinux_include/asm-generic/mutex-xchg.h:25-72 | a locker is pending if and only if one failed and no unlock has called `fail_fn` since |
| `MutexXchg.Outcomes` | libs/liblinux/liblinux_include/asm-generic/mutex-xchg.h:25-118 | every exchange takes the mutex if and only if nobody holds it; who misses it fails after its second exchange, or gives up after putting a mark back; an unlock lets go and calls `fail_fn` if and only if the count is marked |
| `MutexXchg.UncontendedIsQuiet` | libs/liblinux/liblinux_include/asm-generic/mutex-xchg.h:67-72 | as long as nobody had to exchange twice, no unlock calls `fail_fn` |
| `MutexXchg.StepsAre` | libs/liblinux/liblinux_include/asm-generic/mutex-xchg.h:25-118 | exactly the steps a call has reached can be taken |
| `Qrwlock.ByteStoreKeepsReaders` | libs/liblinux/liblinux_include/asm-generic/qrwlock.h:154-166 | on either byte order the one-byte store clears the writer and keeps the reader count |
| `Qrwlock.MemoryPicture` | libs/liblinux/liblinux_include/asm-generic/qrwlock.h:27-42 | the two byte orders of the word as the source draws them |
| `Qrwlock.NextKeepsInv` | libs/liblinux/liblinux_include/asm-generic/qrwlock.h:78-166 | every atomic step of every thread keeps the word equal to readers in flight and writer |
| `Qrwlock.WordIsExact` | libs/liblinux/liblinux_include/asm-generic/qrwlock.h:78-166 | in every run of fewer than 2^24 threads the word is 256 times the readers in flight plus 0xff times the writers, and never wraps |
| `Qrwlock.WriterIsAlone` | libs/liblinux/liblinux_include/asm-generic/qrwlock.h:78-107 | a writer never coexists with a reader or another writer |
| `Qrwlock.CanLockIs` | libs/liblinux/liblinux_include/asm-generic/qrwlock.h:59-71 | the two tests are true if and only if no thread writes, or no thread writes or counts as a reader |
| `Qrwlock.Outcomes` | libs/liblinux/liblinux_include/asm-generic/qrwlock.h:78-166 | a reader gets in if and only if nobody writes, a writer if and only if nobody is in flight; who does not get in backs out, gives up or goes to the slow path, as the call has it |
| `Qrwlock.StepsAre` | libs/liblinux/liblinux_include/asm-generic/qrwlock.h:78-166 | exactly the steps a call has reached can be taken |
| `Rwsem.NextKeepsInv` | libs/liblinux/liblinux_include/asm-generic/rwsem.h:34-127 | every atomic step keeps the count the exact sum of all biases without signed overflow, on both word sizes |
| `Rwsem.WriterIsAlone` | libs/liblinux/liblinux_include/asm-generic/rwsem.h:34-107 | a writer never coexists with a reader or another writer |
| `Rwsem.NoWriterWhileReading` | libs/liblinux/liblinux_include/asm-generic/rwsem.h:56-85 | while some thread reads, no step of any thread leads to a writer |
| `Rwsem.DowngradeLeavesOneReader` | libs/liblinux/liblinux_include/asm-generic/rwsem.h:112-127 | a downgrade leaves exactly one reader, the former writer, and no writer |
| `Rwsem.TryingRunsArePlain` | libs/liblinux/liblinux_include/asm-generic/rwsem.h:40-127 | in runs of trylocks, unlocks and downgrades the count is the number of readers, or the write bias with exactly one writer, and no wake-up function is called |
| `Rwsem.Outcomes` | libs/liblinux/liblinux_include/asm-generic/rwsem.h:34-127 | a reader gets in if and only if no write bias is in the count, a writer if and only if no bias is; a leaving or downgrading writer calls a wake-up function if and only if another thread is in the writers' slow path, and nothing else does as long as slow threads keep their bias |
| `Rwsem.IdleCountIsWoken` | libs/liblinux/liblinux_include/asm-generic/rwsem.h:90-97 | in any state at all an unlocking reader calls `rwsem_wake` if and only if it leaves no active thread and at least one waiting bias in the count |
| `Rwsem.StepsAre` | libs/liblinux/liblinux_include/asm-generic/rwsem.h:34-127 | exactly the steps a call has reached can be taken |
| `WordAtATime.HasZeroLittle64` | libs/liblinux/liblinux_include/asm-generic/word-at-a-time.h:92-97 | nonzero if and only if some byte is zero; the lowest mark is the first zero byte although higher ones may be spurious |
| `WordAtATime.CreateZeroMaskLittle64` | libs/liblinux/liblinux_include/asm-generic/word-at-a-time.h:104-108 | marks become the mask of the whole bytes below the lowest one |
| `WordAtATime.CountMaskedBytes64` | libs/liblinux/liblinux_include/asm-generic/word-at-a-time.h:73-76 | the multiplication counts the bytes of such a mask: the result, as a number, is their number |
| `WordAtATime.LocateLittle64` | libs/liblinux/liblinux_include/asm-generic/word-at-a-time.h:92-116 | the result, as a number, is the index a byte-by-byte search returns, and the byte mask covers what comes before |
| `WordAtATime.HasZeroBig64` | libs/liblinux/liblinux_include/asm-generic/word-at-a-time.h:40-45 | true if and only if some byte is zero |
| `WordAtATime.PrepZeroMaskBig64` | libs/liblinux/liblinux_include/asm-generic/word-at-a-time.h:16-20 | marks exactly the zero bytes |
| `WordAtATime.FindZeroBig64` | libs/liblinux/liblinux_include/asm-generic/word-at-a-time.h:24-38 | the result, as a number, is the index of the first mark in string order |
| `WordAtATime.LocateBig64` | libs/liblinux/liblinux_include/asm-generic/word-at-a-time.h:16-45 | the result, as a number, is the index a byte-by-byte search returns |
| `WordAtATime.BytesMakeWord64` | libs/liblinux/liblinux_include/asm-generic/word-at-a-time.h:7-63 | the bytes searched are those of the word, the low one first in little-endian order |
| `WordAtATime.BytesBelowIs64` | libs/liblinux/liblinux_include/asm-generic/word-at-a-time.h:110-111 | the byte mask is 0xff in the first bytes and 0 in the others |
| `WordAtATime.HasZeroLittle32` | libs/liblinux/liblinux_include/asm-generic/word-at-a-time.h:92-97 | the 32-bit form of the test |
| `WordAtATime.CreateZeroMaskLittle32` | libs/liblinux/liblinux_include/asm-generic/word-at-a-time.h:104-108 | the 32-bit form of the mask |
| `WordAtATime.CountMaskedBytes32` | libs/liblinux/liblinux_include/asm-generic/word-at-a-time.h:81-87 | one signed shift after an addition counts the bytes of a 32-bit byte mask |
| `WordAtATime.LocateLittle32` | libs/liblinux/liblinux_include/asm-generic/word-at-a-time.h:81-116 | the 32-bit little-endian chain |
| `WordAtATime.HasZeroBig32` | libs/liblinux/liblinux_include/asm-generic/word-at-a-time.h:40-45 | the 32-bit big-endian test |
| `WordAtATime.PrepZeroMaskBig32` | libs/liblinux/liblinux_include/asm-generic/word-at-a-time.h:16-20 | the 32-bit big-endian marks |
| `WordAtATime.FindZeroBig32` | libs/liblinux/liblinux_include/asm-generic/word-at-a-time.h:24-38 | the 32-bit halving |
| `WordAtATime.LocateBig32` | libs/liblinux/liblinux_include/asm-generic/word-at-a-time.h:16-45 | the 32-bit big-endian chain |
| `WordAtATime.BytesMakeWord32` | libs/liblinux/liblinux_include/asm-generic/word-at-a-time.h:7-63 | the same for 32 bits |
| `WordAtATime.BytesBelowIs32` | libs/liblinux/liblinux_include/asm-generic/word-at-a-time.h:110-111 | the same for 32 bits |
| `XorBlocks.LinesFit` | libs/liblinux/liblinux_include/asm-generic/xor.h:21 | the line count is the number of whole lines of eight words in the bytes given |
| `XorBlocks.Xor8Regs2` | libs/liblinux/liblinux_include/asm-generic/xor.h:18-35 | for every number of lines from one up, exactly the first eight words per line are xored with the source and nothing else changes, also when the blocks are the same array |
| `XorBlocks.Xor8Regs5` | libs/liblinux/liblinux_include/asm-generic/xor.h:80-101 | the same with four sources |
| `XorBlocks.Xor32Regs2` | libs/liblinux/liblinux_include/asm-generic/xor.h:103-137 | the register form computes the same function |
| `XorBlocks.Xor32Regs5` | libs/liblinux/liblinux_include/asm-generic/xor.h:240-302 | the same with four sources |
| `XorBlocks.Xor8RegsP2` | libs/liblinux/liblinux_include/asm-generic/xor.h:304-328 | the prefetching form, with its line counter one short and its jump back into the loop, does every line exactly once |
| `XorBlocks.Xor8RegsP5` | libs/liblinux/liblinux_include/asm-generic/xor.h:394-429 | the same with four sources |
| `XorBlocks.Xor32RegsP2` | libs/liblinux/liblinux_include/asm-generic/xor.h:431-474 | the prefetching register form |
| `XorBlocks.Xor32RegsP5` | libs/liblinux/liblinux_include/asm-generic/xor.h:601-678 | the same with four sources |
| `XorBlocks.CallsCompose` | libs/liblinux/liblinux_include/asm-generic/xor.h:80-101 | one call with many sources equals a chain of calls with fewer, split anywhere |
| `XorBlocks.XoredKeepsWidth` | libs/liblinux/liblinux_include/asm-generic/xor.h:18-35 | blocks of words of any width stay blocks of words of that width |
| `XorBlocks.ParityRecovers` | libs/liblinux/liblinux_include/asm-generic/xor.h:4 | for any number of blocks, the parity xored with all blocks but one is the one left out |

## Left out

- `__kfifo_free` and the element macros of `kfifo.h`: they add only easy members on top of what is modelled.
- KfifoCore.Kfifo.Alloc: sizes above 2^31 elements and rings of 2^32 bytes or more are outside the model.
- KfifoSgl.SetupSglBuf: `virt_to_page` is an arbitrary function, and the next page boundary behind the buffer is less than 2^32 bytes from its start, which is when the loop guard of a physically contiguous buffer compares rightly; a last segment may be empty, so coverage is stated on the bytes.
- KfifoSgl.SetupSgl: a store behind the last entry of a list ends the model there.
- KfifoRuns.RunRecords: bodies that do not fit the header, and measuring or skipping an empty queue, are outside the legal runs; the single calls say what happens then.
- Div64.DoDiv: `__div64_32` is defined elsewhere; the model ends there.  A zero divisor is undefined behaviour.  The 64-bit form of `do_div` is plain division.
- Uart16550: what `copy_to_user` fails to deliver after `kfifo_out` is lost to the reader and still counts as taken; waiting is a no-op because the wait may be interrupted; interrupts of one device do not nest; set-up, clean-up, `ioctl` and line programming are not modelled.
- MutexXchg, Qrwlock, Rwsem: the slow paths are defined elsewhere; a thread that enters one stays there with what it added to the word, so an unlocking reader of the semaphore never finds anybody to wake.  The queue rwlock is limited to fewer than 2^24 threads and the semaphore to fewer than half its active field, as the words demand.  `__down_write_killable` takes the same fast path as `__down_write`.
- `queued_spin_lock_slowpath`: it exchanges the observed value for 1 and gives no exclusion; the driver's ring locks use only the try-lock.
- WordAtATime.LocateBig64: the big-endian `zero_bytemask` is not modelled.
- XorBlocks: the kernels with two and three sources are the same loops with fewer operands; prefetching has no effect on values.
- Weak memory, `printk`, allocation failure inside the driver, and all start-up code.
