# A model of the mlx5 userspace driver's rings, caches and hash table

This project models, in Dafny 4.11, the ring and index code of the mlx5 userspace driver in
`ooo/lib/libmlx5-41mlnx1/src`, the intrusive hash table `ooo/src/rdma/uthash.h`, and the part of
`ooo/src/rdma` that keeps a second copy of the driver's producer counter. `dafny verify
dfyconfig.toml` checks all of it.

* **Completion queue.** `cqe.dfy` gives the 64-byte entry, read as a completion or as eight mini
  entries. `cq_model.dfy` is the protocol: a device that writes entries and compressed sessions, a
  consumer that polls, and the queue of completions that a state stands for. Its main results are
  about all runs. `cq_eager.dfy`, `cq_clean.dfy` and `cq_resize.dfy` are the three ways in which
  software rewrites a ring: unpacking in place, removing the entries of one resource, and moving to
  a ring of another size. `cq_session.dfy` says field by field what the entries of a session are,
  however they are unpacked. `cq_driver.dfy` is the driver itself, a class with the driver's fields
  and 32-bit indices whose methods run its loops on an array; each is proved against the protocol.
* **Shared receive queue** (`srq.dfy`): the free list threaded through the slots, with the sequence of
  slots issued and returned as history.
* **Send queue.** `send_size.dfy` is the arithmetic at creation and per request, `send_ring.dfy` the
  ring with its bookkeeping and the log of posted requests, `send_shadow.dfy` the second counter,
  `payload.dfy` inline data and scattered responses that wrap round the end of the ring.
* **Erasure coding.** `ec_algebra.dfy` is the algebra over any ring of characteristic two,
  `ec_matrix.dfy` and `ec_update.dfy` the byte matrices and the loops that fill them, `ec_loose.dfy`
  what those loops leave when the number of codes announced is not the number marked,
  `ec_split.dfy` and `ec_jobs.dfy` the cutting of large jobs into sections, `ec_join.dfy` the counter
  that joins the sections.
* **Smaller allocators.** `dbrec.dfy` is the doorbell-record allocator over a linked list of pages,
  `implicit_lkey.dfy` the two-level cache of memory regions and the prefetch loop.
* **Hash table.** `uthash_chain.dfy` and `uthash_expand.dfy` are the bucket chains and their doubling,
  `uthash_table.dfy` the table as a refinement of a finite map, `uthash_order.dfy` what the merge sort
  computes and why it is stable, `uthash_sort.dfy` the sort on the links.
* `words.dfy` holds the machine words and the arithmetic of ring indices.

A function that a method is proved against (`Poll`, `ExpandCurrent`, `CopyUp`, `SweepStep`, `Units`,
`Merge`, `Pass`, `SortFrom` and the like) is a specification; the properties of it are the lemmas below.

## What the code does where its intent differs

Each of these is stated by a lemma with a concrete input and one that says exactly when the intent
is met.

* Cleaning a full ring stops one entry short: an entry of the resource in the last slot of a full
  ring stays (`CqClean.FullRingKeepsOne`, `CqClean.CleaningIsFilterExactly`).
* The loop that scatters a response does not advance the pointer it copies from unless it converts
  the bytes. When a plain response, such as that of an RDMA read, goes to several entries, each entry
  receives the first bytes of the buffer again, and the end of the ring, after which a second run of
  the loop starts at the right byte, shows in the result (`Payload.SecondEntryGetsFirstByte`,
  `Payload.CopyMeetsIntentExactly`, `Payload.WrapInvisibleExactly`,
  `Payload.WrappedMeetsIntentExactly`).
* An atomic request with several gather entries, or with inline data, can pass the run-time checks and
  still be longer than the size computed at creation (`SendSize.AtomicMayNotFit`,
  `SendSize.AtomicFitsExactly`).
* Inline data is copied entry by entry before the next entry is checked, so an atomic that is refused
  for its inline data can have run past that size too, and over a request that is still in flight
  (`SendRing.RefusedAtomicOverruns`, `SendRing.RefusedPostDamages`,
  `Payload.SendBuffer.RefusedOverwrites`, `SendSize.WrittenFitsExactly`).
* The shadow counter ignores inline data, so it agrees with the driver only when the sizes happen to
  fall into the same number of blocks (`SendShadow.InlineDiverges`, `SendShadow.PostThrough`). It is
  advanced before the driver is asked, so a refused request leaves it ahead
  (`SendShadow.RefusedInput`, `SendShadow.PostThrough`).
* The update splitter is told how many codes are updated. Told more than are marked, it runs fewer
  sections than the joined completion waits for (`EcSplit.LeftOver`, `EcSplit.CutSections`). An update
  that is not split trusts the caller as well: told fewer than are marked, the rows of its matrix run
  into each other (`EcLoose.AnnouncedTooFew`, `EcLoose.OutputRightExactly`,
  `EcUpdate.UnsplitReencodesExactly`); told more, it also writes blocks from columns of the pool matrix
  that it has not filled.
* Polls count the entries of a session in 16 bits, unpacking in place in 32. They take the same number
  only up to 65536 (`CqModel.LongSession`, `CqModel.LazyLengthExactly`).
* The implicit-key lookup accepts requests of up to 2^28 bytes, but the region chosen is sure to cover
  them only below 2^27 (`ImplicitLkey.LongMayNotFit`, `ImplicitLkey.BaseCovers`). Its closing check
  computes the end of the region in 64 bits, so it fails for every request in the last 2^28 bytes of
  the address space that does not wrap (`ImplicitLkey.ClosingCheckFails`,
  `ImplicitLkey.ClosingCheckExactly`).
* The check for canonical addresses also accepts addresses with bit 48 set and the bits above it
  clear; they share table slots with sign-extended ones (`ImplicitLkey.SlotsCollide`,
  `ImplicitLkey.SameSlot`), and a lookup then returns a region that does not cover its request
  (`ImplicitLkey.WrongRegion`, `ImplicitLkey.RegionCovers`).

## Model

| member | source | states |
|---|---|---|
| Words.WrapIsHarmless | ooo/lib/libmlx5-41mlnx1/src/cq.c:167-170 | slot and owner bit read off the 32-bit consumer index are those of the index counted without bound, for every ring size up to 2^31 |
| Words.SlotIsRemainder | ooo/lib/libmlx5-41mlnx1/src/cq.c:147-168 | walking whole laps, the slot of an index is its remainder and the owner bit the parity of its laps, which is what the two masks compute |
| Words.SlotsDistinct | ooo/lib/libmlx5-41mlnx1/src/cq.c:147-148 | indices less than a lap apart never share a slot |
| Cqe.MinisAreBytes | ooo/lib/libmlx5-41mlnx1/src/mlx5dv.h:300-349 | read as eight mini entries, a slot holds the same 64 bytes as read as a completion, field after field |
| CqModel.MarkOwnedEffect | ooo/lib/libmlx5-41mlnx1/src/cq.c:702-725 | marking slots of a session clears opcode and format and gives each slot the owner bit of its own index, and touches no other slot |
| CqModel.StaleNextLap | ooo/lib/libmlx5-41mlnx1/src/cq.c:702-725 | a slot that carries the owner bit of a consumed index is not fresh one lap later |
| CqModel.RefillKeeps | ooo/lib/libmlx5-41mlnx1/src/cq.c:728-735 | reading the next eight mini entries and marking their slots changes nothing that is still to be delivered |
| CqModel.StartSession | ooo/lib/libmlx5-41mlnx1/src/cq.c:817-826 | starting a session keeps the queue of completions as it was |
| CqModel.DecompressDelivers | ooo/lib/libmlx5-41mlnx1/src/cq.c:754-786 | unpacking one mini entry delivers the head of the queue and leaves its tail |
| CqModel.LazyLengthExactly | ooo/lib/libmlx5-41mlnx1/src/cq.c:738-786 | polls take the entries of a session until the 16-bit count is zero for the first time; these are as many as announced if and only if the session has from 1 to 65536 entries |
| CqModel.LongSession | ooo/lib/libmlx5-41mlnx1/src/cq.c:738-751 | of a session that announces 65537 entries polls take one |
| CqModel.TakeSingle | ooo/lib/libmlx5-41mlnx1/src/cq.c:145-176 | taking an uncompressed entry delivers the head of the queue and leaves its tail |
| CqModel.PollIsDequeue | ooo/lib/libmlx5-41mlnx1/src/cq.c:145-176 | in every valid state one poll is one dequeue: it delivers the oldest unconsumed completion, or nothing exactly when there is none |
| CqModel.InitValid | ooo/lib/libmlx5-41mlnx1/src/cq.c:1724-1728 | a ring whose slots all carry the invalid opcode is valid and empty |
| CqModel.DeviceEnqueues | ooo/lib/libmlx5-41mlnx1/src/cq.c:145-176 | whatever the device writes for new indices, stale bytes inside sessions included, is appended to the queue and nothing before it changes |
| CqModel.StepKeeps | ooo/lib/libmlx5-41mlnx1/src/cq.c:145-176 | a device step appends its batch to the queue, a poll takes the head of the queue off or leaves it |
| CqModel.ExactlyOnceInOrder | ooo/lib/libmlx5-41mlnx1/src/cq.c:145-176 | in every run of device and poll steps, what was delivered followed by what is queued is exactly what was produced |
| CqModel.AcceptedExactlyWhenProduced | ooo/lib/libmlx5-41mlnx1/src/cq.c:145-176 | in every run a poll accepts an entry if and only if the consumer index has been produced and not consumed, and it accepts the completion of that index |
| CqEager.WrittenSession | ooo/lib/libmlx5-41mlnx1/src/cq.c:574-612 | entries written over a session, title and mini entries included, stand for exactly the completions of the session |
| CqEager.UnpackedSameTitle | ooo/lib/libmlx5-41mlnx1/src/cq.c:574-612 | unpacking is not disturbed by the title having been overwritten by an entry of the same session |
| CqEager.ExpandCurrentKeeps | ooo/lib/libmlx5-41mlnx1/src/cq.c:665-699 | unpacking the rest of the session at hand in place keeps every completion and its place in the queue |
| CqEager.ExpandAtKeeps | ooo/lib/libmlx5-41mlnx1/src/cq.c:634-661 | unpacking a later session over its own title keeps every completion and its place in the queue |
| CqEager.PollsAreDequeues | ooo/lib/libmlx5-41mlnx1/src/cq.c:817-826 | n polls deliver the first n completions and leave the others |
| CqEager.LazyAndEagerAgree | ooo/lib/libmlx5-41mlnx1/src/cq.c:574-699 | after any number of lazy polls, unpacking the rest in place leaves in order exactly what further lazy polls would deliver |
| CqSession.PollByFields | ooo/lib/libmlx5-41mlnx1/src/cq.c:145-176 | outside a session a poll takes the entry at the consumer index exactly when its opcode is not 15 and its owner bit is the parity of the lap, and takes it as it is unless its format is 3 |
| CqSession.SameContent | ooo/lib/libmlx5-41mlnx1/src/cq.c:586-588 | two entries stand for the same completion exactly when they agree in all fields but the owner bit and the mark of a session |
| CqSession.PollDeliversEntry | ooo/lib/libmlx5-41mlnx1/src/cq.c:738-826 | poll k of a session delivers the byte count of mini entry k and, for a responder, its hash and the counter of the title plus k, or plus the strides of the messages before, modulo 2^16; for a requestor its counter and opcode; all else is from the title |
| CqSession.ExpandAtWritesEntries | ooo/lib/libmlx5-41mlnx1/src/cq.c:634-661 | a session unpacked ahead of the consumer has in slot k that same entry, with the owner bit of its index |
| CqSession.ExpandCurrentWritesEntries | ooo/lib/libmlx5-41mlnx1/src/cq.c:665-699 | a session unpacked after n polls has in every later slot k that same entry, with the owner bit of its index |
| CqClean.SweepStepKeeps | ooo/lib/libmlx5-41mlnx1/src/cq.c:1592-1606 | each step of the backward sweep keeps: the swept indices hold the surviving entries in order with the owner bits of their new slots |
| CqClean.SweepResult | ooo/lib/libmlx5-41mlnx1/src/cq.c:1585-1613 | after the sweep and the advance of the consumer the ring is valid and its queue is the scanned part filtered, followed by the rest |
| CqClean.CleaningIsFilterExactly | ooo/lib/libmlx5-41mlnx1/src/cq.c:1577-1583 | cleaning removes every entry of the resource if and only if the ring is not full or its last entry is of another resource |
| CqClean.FullRingKeepsOne | ooo/lib/libmlx5-41mlnx1/src/cq.c:1577-1583 | a ring of any size reaches a valid state, full of completions of one resource, in which cleaning that resource leaves the last one |
| CqClean.KeepHasNone | ooo/lib/libmlx5-41mlnx1/src/cq.c:1534-1554 | what is kept holds exactly the entries of the other resources |
| CqClean.CleanedByFields | ooo/lib/libmlx5-41mlnx1/src/cq.c:1524-1613 | of the scanned entries exactly those with the user index, under version 1, or the queue pair number, under version 0, are gone, the others are left in order, and the slots given back are those of responses or of entries that name a shared queue, last one first |
| CqResize.CopyUpEffect | ooo/lib/libmlx5-41mlnx1/src/cq.c:1653-1684 | copying one index up gives the new ring the same entries, fresh under its own size, and touches no other slot |
| CqResize.ResizeKeeps | ooo/lib/libmlx5-41mlnx1/src/cq.c:1632-1687 | read from the advanced consumer index under its own size, the new ring holds exactly the old entries before the marker, then what the device put there |
| CqResize.NewRingReady | ooo/lib/libmlx5-41mlnx1/src/cq.c:1724-1728 | a ring as allocated is ready for the device from any index on |
| CqResize.FirstMarker | ooo/lib/libmlx5-41mlnx1/src/cq.c:1653-1653 | the place of the first resize marker, or the length when there is none |
| CqResize.PlainToTheEnd | ooo/lib/libmlx5-41mlnx1/src/cq.c:1632-1652 | after unpacking all sessions the queue can be read slot by slot up to the producer |
| CqDriver.CompletionQueue.constructor | ooo/lib/libmlx5-41mlnx1/src/cq.c:1689-1731 | a new queue is valid and empty |
| CqDriver.CompletionQueue.UpdateCqeOwnership | ooo/lib/libmlx5-41mlnx1/src/cq.c:702-725 | the two loops, before and after the end of the ring, mark the slots of the chunk at hand |
| CqDriver.CompletionQueue.SaveMiniArr | ooo/lib/libmlx5-41mlnx1/src/cq.c:728-735 | reads eight mini entries and marks their slots |
| CqDriver.CompletionQueue.SaveTitle | ooo/lib/libmlx5-41mlnx1/src/cq.c:738-751 | reads the title at the consumer index into the saved session |
| CqDriver.CompletionQueue.DecompNextCqe | ooo/lib/libmlx5-41mlnx1/src/cq.c:754-786 | one lazy unpacking step is the step of the protocol |
| CqDriver.CompletionQueue.PollOne | ooo/lib/libmlx5-41mlnx1/src/cq.c:1007-1167 | on 32-bit indices and the ring in place, one poll takes the entry that the dequeue of the protocol takes, or none exactly when the slot is invalid or not of this lap |
| CqDriver.CompletionQueue.CopyCqes | ooo/lib/libmlx5-41mlnx1/src/cq.c:574-612 | the copying loop, which rereads a title it may have overwritten, writes the entries of the mini array |
| CqDriver.CompletionQueue.CopyChunks | ooo/lib/libmlx5-41mlnx1/src/cq.c:634-661 | the loop over chunks of eight writes the entries of the whole session |
| CqDriver.CompletionQueue.DecompressCqeIdx | ooo/lib/libmlx5-41mlnx1/src/cq.c:634-661 | unpacks a session that has not been started, over its own title |
| CqDriver.CompletionQueue.DecompressCurr | ooo/lib/libmlx5-41mlnx1/src/cq.c:665-699 | unpacks the rest of the session at hand |
| CqDriver.CompletionQueue.ScanToProducer | ooo/lib/libmlx5-41mlnx1/src/cq.c:1556-1583 | unpacks every session, keeps the queue, and finds the producer or, in a full ring, the last slot |
| CqDriver.CompletionQueue.Clean | ooo/lib/libmlx5-41mlnx1/src/cq.c:1556-1613 | the queue becomes the cleaned queue, by the fields of its entries, the consumer moves by the number removed, and each removed receive completion gives its slot back once, in order |
| CqDriver.CompletionQueue.Sweep | ooo/lib/libmlx5-41mlnx1/src/cq.c:1585-1607 | the loop on signed differences of 32-bit indices visits exactly the scanned indices, last one first |
| CqDriver.CompletionQueue.ResizeCopyCqes | ooo/lib/libmlx5-41mlnx1/src/cq.c:1632-1687 | the copy loop ends; it reports success exactly when a marker is in the window, and then it has copied exactly the entries before it; without one it has copied at least everything pending |
| CqDriver.CompletionQueue.CopyLoop | ooo/lib/libmlx5-41mlnx1/src/cq.c:1645-1684 | the loop stops at the first marker after copying what precedes it, finds none that the device has not produced, and without one copies all that is pending |
| CqDriver.CompletionQueue.Resize | ooo/lib/libmlx5-41mlnx1/src/verbs.c:1091-1131 | after the buffer switch the queue is the old one up to the marker followed by what the device wrote to the new ring; without a marker the rings are switched, the entries are one index up and the consumer stays |
| Srq.SharedReceiveQueue.constructor | ooo/lib/libmlx5-41mlnx1/src/srq.c:269-275 | the list runs through all slots in order |
| Srq.SharedReceiveQueue.FreeWqe | ooo/lib/libmlx5-41mlnx1/src/srq.c:76-87 | a slot given back goes to the end of the list |
| Srq.SharedReceiveQueue.Requeue | ooo/lib/libmlx5-41mlnx1/src/srq.c:108-145 | the request of a completed slot moves with identifier and scatter list to the head slot, the number posted stays, even when one slot is free, and the counter goes up by one |
| Srq.SharedReceiveQueue.CopyScatter | ooo/lib/libmlx5-41mlnx1/src/srq.c:127-137 | copying up to the terminator copies what the hardware reads of the list |
| Srq.SharedReceiveQueue.WriteScatter | ooo/lib/libmlx5-41mlnx1/src/srq.c:187-197 | a list shorter than the row is closed by a terminator and is what the hardware reads |
| Srq.SharedReceiveQueue.PostOne | ooo/lib/libmlx5-41mlnx1/src/srq.c:164-200 | takes the head of the list for one request, or refuses it and changes nothing |
| Srq.SharedReceiveQueue.PostRecv | ooo/lib/libmlx5-41mlnx1/src/srq.c:147-218 | posts the longest acceptable prefix of a chain into the slots that were free, in order, and reports why it stopped |
| Srq.SharedReceiveQueue.CameBack | ooo/lib/libmlx5-41mlnx1/src/srq.c:76-218 | a slot of the buffer is off the free list exactly when it has been issued once more than it was returned, and on it exactly when it was returned as often as issued |
| Srq.SharedReceiveQueue.Partition | ooo/lib/libmlx5-41mlnx1/src/srq.c:76-145 | the slots issued and not returned, and the free slots, partition the buffer, and at most max - 1 slots are posted |
| Srq.SharedReceiveQueue.FirstInFirstOut | ooo/lib/libmlx5-41mlnx1/src/srq.c:76-218 | slots are issued in the order in which they came back |
| EcAlgebra.PairsFlip | ooo/lib/libmlx5-41mlnx1/src/ec.c:81-189 | over any ring of characteristic two the rows of the changed blocks turn the sum over the old data into the sum over the new |
| EcAlgebra.UpdateIsReencode | ooo/lib/libmlx5-41mlnx1/src/ec.c:81-189 | applying the update rows to old codes and changed pairs is encoding the new data |
| EcLoose.OutputRightExactly | ooo/lib/libmlx5-41mlnx1/src/ec.c:81-189 | whatever number of codes is announced, output v is right for all data if and only if, in every changed block, the coefficient that has run on into column v is the one that belongs there |
| EcLoose.ReachesFarEnough | ooo/lib/libmlx5-41mlnx1/src/ec.c:81-189 | nothing runs on into column v when the width of the matrix and v reach the number of marked codes |
| EcLoose.AnnouncedTooFew | ooo/lib/libmlx5-41mlnx1/src/ec.c:1840-1843 | one code announced where two are marked: already the first output is wrong |
| EcMatrix.ColumnFits | ooo/lib/libmlx5-41mlnx1/src/ec.h:54-73 | column j lies in matrix j / 4, at a column that matrix has |
| EcMatrix.EncodeCellBound | ooo/lib/libmlx5-41mlnx1/src/ec.c:539-588 | every stored coefficient, and the padding column of a last matrix of three, lies inside the registered buffer |
| EcMatrix.EncodeCellInjective | ooo/lib/libmlx5-41mlnx1/src/ec.c:539-588 | no two coefficients, padding included, share a byte of the registered buffer |
| EcMatrix.EncodeIsDot | ooo/lib/libmlx5-41mlnx1/src/ec.c:539-588 | the code block that the rows define is the sum of matrix[i * m + j] times data block i over the caller's bytes |
| EcMatrix.RegEncodeMatrix | ooo/lib/libmlx5-41mlnx1/src/ec.c:539-588 | coefficient i, j of the registered buffer is byte i * m + j of the caller's matrix, with the formatting bit unless w is 8; the padding column beside three stays zero |
| EcUpdate.FitsPool | ooo/lib/libmlx5-41mlnx1/src/ec.c:81-189 | every entry of an update matrix lies inside a matrix of the pool |
| EcUpdate.CodesExactly | ooo/lib/libmlx5-41mlnx1/src/ec.c:129-180 | the chosen blocks of a range are exactly the marked ones in it, in rising order |
| EcUpdate.GetUpdateMat | ooo/lib/libmlx5-41mlnx1/src/ec.c:81-189 | for any announced number of codes the pool matrix holds the identity rows, then two rows for every changed block, the second overwritten by what runs past the first; with as many announced as marked the two are equal and it is the update matrix |
| EcUpdate.OutputOfRows | ooo/lib/libmlx5-41mlnx1/src/ec.c:81-189 | what the hardware computes with a padded matrix is the product with its rows |
| EcUpdate.UpdateMatrixReencodes | ooo/lib/libmlx5-41mlnx1/src/ec.c:1706-1745 | the output of the update matrix in the pool is the code block of the new data |
| EcUpdate.UnsplitReencodesExactly | ooo/lib/libmlx5-41mlnx1/src/ec.c:1821-1851 | an update that is not split writes exactly the marked code blocks of the new data if and only if as many codes are announced as are marked |
| EcUpdate.CodeBlocksFromBytes | ooo/lib/libmlx5-41mlnx1/src/ec.c:1821-1851 | the blocks that an update writes are sums over the caller's bytes and the new data |
| EcSplit.SectionIsSlice | ooo/lib/libmlx5-41mlnx1/src/ec.c:1783-1816 | the chosen blocks of a section are a slice of all chosen blocks |
| EcSplit.CutSections | ooo/lib/libmlx5-41mlnx1/src/ec.c:2111-2150 | the splitting loop serves the announced blocks, and runs as many sections as the macro promised if and only if no more blocks are announced than are chosen |
| EcSplit.LeftOver | ooo/lib/libmlx5-41mlnx1/src/ec.c:1764-1816 | six updated codes announced where five are marked: the fifth is in no section, and one of the two sections never runs |
| EcSplit.SectionShape | ooo/lib/libmlx5-41mlnx1/src/ec.c:2087-2152 | every section has one to four outputs, all but the last four, and sections follow one another without a gap |
| EcSplit.RankDecidesSection | ooo/lib/libmlx5-41mlnx1/src/ec.c:2087-2152 | the r-th chosen block is output r % 4 of section r / 4 and lies in no other section |
| EcSplit.Ordered | ooo/lib/libmlx5-41mlnx1/src/ec.c:2087-2152 | index ranges of different sections are disjoint |
| EcJobs.EncodeSectionEncodes | ooo/lib/libmlx5-41mlnx1/src/ec.c:1635-1674 | in a split encode every output, computed with the matrix of its section, is the code block of the data |
| EcJobs.EncodeFromBytes | ooo/lib/libmlx5-41mlnx1/src/ec.c:539-588 | from the caller's bytes: what the hardware computes from the registered buffer for code block j is the sum over i of matrix[i * m + j] times data block i |
| EcJobs.SplitEncode | ooo/lib/libmlx5-41mlnx1/src/ec.c:1659-1672 | the loop hands code block j to section j / 4 as its output j % 4, and every section as many as its matrix has columns |
| EcJobs.SplitUpdate | ooo/lib/libmlx5-41mlnx1/src/ec.c:1764-1816 | the loop that refills one shared array hands every section its own old code blocks, then all changed pairs, and the code blocks of that section as outputs |
| EcJobs.SplitUpdateReencodes | ooo/lib/libmlx5-41mlnx1/src/ec.c:1750-1819 | in a split update every updated code block comes out as the code block of the new data, from the input of its own section alone |
| EcJobs.SplitUpdateFromBytes | ooo/lib/libmlx5-41mlnx1/src/ec.c:1750-1819 | from the caller's bytes: what a split update computes for every updated code block is the sum over i of matrix[i * m + j] times new data block i |
| EcJobs.GetDecodeMat | ooo/lib/libmlx5-41mlnx1/src/ec.c:48-79 | the pool matrix holds the columns of the section; for three outputs the fourth column is zero |
| EcJobs.SetDecodeKlms | ooo/lib/libmlx5-41mlnx1/src/ec.c:1878-1927 | outputs are the erased blocks of the section, inputs the first k surviving blocks; it fails exactly on a fifth output or a block of the wrong length |
| EcJobs.SurvivorsExactly | ooo/lib/libmlx5-41mlnx1/src/ec.c:1878-1927 | the surviving blocks are exactly those that are not erased, in rising order |
| EcJobs.SplitDecodeUsesItsColumn | ooo/lib/libmlx5-41mlnx1/src/ec.c:2087-2152 | in a split decode the r-th erased block is computed once, as the sum over i of decode[i * m + r] times survivor i, with m the number of erased blocks |
| EcJoin.MultiComp.constructor | ooo/lib/libmlx5-41mlnx1/src/ec.c:239-264 | a joined completion starts with the number of sections and status success |
| EcJoin.MultiComp.SetStatusCheckDone | ooo/lib/libmlx5-41mlnx1/src/ec.c:1601-1626 | counts a section down; the last one reports to the user and returns the completion to its pool |
| EcJoin.MultiComp.SectionOver | ooo/lib/libmlx5-41mlnx1/src/ec.c:1628-1674 | whichever way a section ends, the callback has run exactly when all are over and the status is failure exactly when one failed |
| EcJoin.RunJob | ooo/lib/libmlx5-41mlnx1/src/ec.c:1635-1674 | for every interleaving the callback runs once, at the last event, with the right status, and the completion is put back once |
| SendSize.AccountSize | ooo/lib/libmlx5-41mlnx1/src/qp.c:1712-1777 | the running size of a request is its header, then its non-empty entries or its inline bytes; too many inline bytes are refused |
| SendSize.CopiedBefore | ooo/lib/libmlx5-41mlnx1/src/qp.c:562-582 | a loop that stops at an entry over the limit has copied exactly the entries before it |
| SendSize.HeaderUnits | ooo/lib/libmlx5-41mlnx1/src/qp.c:1712-1777 | the header is a control segment, a remote address for RDMA and atomics, an atomic segment, and a segment for wait and enable requests |
| SendSize.Align | ooo/lib/libmlx5-41mlnx1/src/mlx5.h:996-999 | the least multiple that is not below the value |
| SendSize.RoundUpPowerOfTwo | ooo/lib/libmlx5-41mlnx1/src/verbs.c:592-604 | the least power of two not below a size, or overflow |
| SendSize.LeastRoom | ooo/lib/libmlx5-41mlnx1/src/verbs.c:1277-1449 | the request size is the least number of whole blocks with room for the entries, inline bytes, atomic argument and inline KLMs that were asked for |
| SendSize.CalcSqSize | ooo/lib/libmlx5-41mlnx1/src/verbs.c:1505-1567 | a ring is made exactly when the least request size with all the room asked for fits a descriptor and the rounded ring an int and the device; the user gets at least the requests, entries and inline bytes asked for, and max_post and max_gs are as large as they can be |
| SendSize.LeastPowerUnique | ooo/lib/libmlx5-41mlnx1/src/verbs.c:592-604 | only one power of two is not below a size while its half is |
| SendSize.WrittenFitsExactly | ooo/lib/libmlx5-41mlnx1/src/qp.c:545-590 | what is written for a request, posted or refused for its inline data, stays inside the computed size if and only if it is no atomic or its header leaves room for what is copied |
| SendSize.WrittenIsAccounted | ooo/lib/libmlx5-41mlnx1/src/qp.c:2234-2236 | a request that passes the checks is written into exactly the blocks by which the producer advances |
| SendSize.RequestFitsExactly | ooo/lib/libmlx5-41mlnx1/src/verbs.c:1277-1306 | a request that passes the run-time checks fits the size computed at creation if and only if it is no atomic or its header leaves room for what follows |
| SendSize.OneEntryHasRoom | ooo/lib/libmlx5-41mlnx1/src/verbs.c:1474-1503 | an atomic with at most one gather entry and no inline data always has that room |
| SendSize.NothingInline | ooo/lib/libmlx5-41mlnx1/src/verbs.c:1533-1540 | when the overhead fills the request the limit on inline bytes has wrapped to almost 2^32, but then no entry is allowed, and a request that passes the checks has none |
| SendSize.AtomicFitsExactly | ooo/lib/libmlx5-41mlnx1/src/qp.c:1760-1777 | an atomic, inline or not, fits if and only if its header leaves room for its entries or inline bytes |
| SendSize.AtomicMayNotFit | ooo/lib/libmlx5-41mlnx1/src/verbs.c:1474-1503 | an atomic with two entries and one with inline data that pass the checks and take more blocks than the ring has |
| SendRing.RangesDisjoint | ooo/lib/libmlx5-41mlnx1/src/qp.c:2199-2237 | block ranges of requests that are not retired share no slot |
| SendRing.SizingBoundsBlocks | ooo/lib/libmlx5-41mlnx1/src/verbs.c:1546-1565 | counting requests bounds blocks |
| SendRing.AskedForIsPosted | ooo/lib/libmlx5-41mlnx1/src/verbs.c:1505-1567 | a request within what was asked for at creation is posted |
| SendRing.PostedExactly | ooo/lib/libmlx5-41mlnx1/src/qp.c:2205-2236 | a request is posted exactly when it is within what the queue allows, opcode by opcode |
| SendRing.FreeBlock | ooo/lib/libmlx5-41mlnx1/src/qp.c:360-383 | when the overflow check lets a request in, its blocks are free |
| SendRing.WriteBlock | ooo/lib/libmlx5-41mlnx1/src/qp.c:2199-2237 | writing a block of a new request damages no request that is not retired |
| SendRing.OverlaidKeeps | ooo/lib/libmlx5-41mlnx1/src/qp.c:2199-2237 | blocks laid over the ring damage no request that is not retired, as long as they are no more than computed |
| SendRing.CounterNamesBlock | ooo/lib/libmlx5-41mlnx1/src/cq.c:1148-1150 | the 16-bit counter of a completion names the block of its request |
| SendRing.SendQueue.WqOverflow | ooo/lib/libmlx5-41mlnx1/src/qp.c:360-383 | the check on 32-bit counters is exact |
| SendRing.SendQueue.WriteWqe | ooo/lib/libmlx5-41mlnx1/src/qp.c:2209-2230 | lays the blocks of a request over the ring from the producer on, round its end, and changes nothing else |
| SendRing.SendQueue.Commit | ooo/lib/libmlx5-41mlnx1/src/qp.c:2224-2237 | records the request at its first block, advances the producer, and keeps the queue in order if the request is no longer than computed |
| SendRing.SendQueue.PostOne | ooo/lib/libmlx5-41mlnx1/src/qp.c:2199-2237 | posts any request, or refuses it for exactly the first reason that applies; the ring is the old one with the written blocks laid over it, and the queue stays in order if what was written has room |
| SendRing.SendQueue.PostSend | ooo/lib/libmlx5-41mlnx1/src/qp.c:2183-2260 | posts any chain up to the first request that is refused, in order, and reports why; the queue stays in order if every request up to there has room |
| SendRing.SendQueue.PollSend | ooo/lib/libmlx5-41mlnx1/src/cq.c:1143-1167 | a completion returns the identifier of its own request and retires it with all earlier ones |
| SendRing.SendQueue.NoOverlap | ooo/lib/libmlx5-41mlnx1/src/qp.c:2199-2237 | in every state in order, blocks of requests that are not retired do not overlap |
| SendRing.RefusedAtomicOverruns | ooo/lib/libmlx5-41mlnx1/src/qp.c:558-577 | an inline atomic of 28 bytes and one more is refused, by when 80 bytes have been written where requests are 64 bytes long |
| SendRing.RefusedPostDamages | ooo/lib/libmlx5-41mlnx1/src/qp.c:2199-2237 | posted to a queue with one request in flight, it is refused and has overwritten that request |
| SendShadow.Shadow.UpdateScurPost | ooo/src/rdma/mlx5_intf.c:336-396 | the shadow records the identifier and advances by the size without inline data |
| SendShadow.PostThrough | ooo/src/rdma/mlx5_intf.c:314-396 | a posted request keeps both counters and tables in step if and only if the shadow expects its size, as for every request that is not inline; a refused one puts the shadow out of step |
| SendShadow.RefusedInput | ooo/src/rdma/mlx5_intf.c:314-331 | an eight-byte send that the driver refuses and the shadow has counted |
| SendShadow.CompleteThrough | ooo/lib/libmlx5-41mlnx1/src/cq.c:1143-1167 | a completion finds the same identifier at its block in both tables and keeps them in step |
| SendShadow.RunThrough | ooo/src/rdma/mlx5_intf.c:314-396 | over any run of posts and completions up to the first refusal, as long as the shadow expects every size, both stay in step and both report for every completion the identifier that was posted |
| SendShadow.RunFromStart | ooo/src/rdma/mlx5_intf.c:314-396 | the same from the two constructors on, for requests that are not inline |
| SendShadow.InlineDiverges | ooo/src/rdma/mlx5_intf.c:336-396 | inline requests for which the sizes agree and for which they do not |
| Payload.StoredAround | ooo/lib/libmlx5-41mlnx1/src/qp.c:567-575 | bytes copied up to the end and on from the start are read back in order |
| Payload.SendBuffer.CopyEntry | ooo/lib/libmlx5-41mlnx1/src/qp.c:567-577 | one gather entry is read back round the end of the ring and nothing else changes |
| Payload.SendBuffer.SetDataInlSeg | ooo/lib/libmlx5-41mlnx1/src/qp.c:545-590 | inline data read back round the end is the concatenation of the entries behind a header with their total; on overflow the bytes within the limit have been written, and nothing else |
| Payload.SendBuffer.RefusedOverwrites | ooo/lib/libmlx5-41mlnx1/src/qp.c:558-577 | a refused inline atomic in the first of two blocks has written sixteen bytes of its first entry over the second block |
| Payload.HeaderValue | ooo/lib/libmlx5-41mlnx1/src/qp.c:584-586 | the four bytes of an inline header are its word in network byte order |
| Payload.ScatterConcat | ooo/lib/libmlx5-41mlnx1/src/qp.c:310-332 | scattering through two lists in turn is what scattering through both is meant to be |
| Payload.CopiedByValue | ooo/lib/libmlx5-41mlnx1/src/qp.c:175-223 | by value: with conversion 2, 4 or 8 bytes arrive as the same number in the order of the host and any other number as they are, without it the start of the buffer arrives |
| Payload.CopyToScat | ooo/lib/libmlx5-41mlnx1/src/qp.c:175-223 | the loop as written, which rereads the start of its buffer unless it converts; what every entry receives is stated by value, and a list that is too short is reported |
| Payload.CopyToSendWqe | ooo/lib/libmlx5-41mlnx1/src/qp.c:237-333 | a response goes through the part of its list before the end of the ring, then through the rest from the first byte left over; what every entry receives is stated by value |
| Payload.ResponseFollowsHeader | ooo/lib/libmlx5-41mlnx1/src/qp.c:265-309 | the list that a response goes through starts where the accounting of the post ended the header, and has every entry that is not empty |
| Payload.CopyMeetsIntentExactly | ooo/lib/libmlx5-41mlnx1/src/qp.c:175-223 | one run of the loop scatters every buffer as meant if and only if it converts or at most one entry receives bytes |
| Payload.WrapInvisibleExactly | ooo/lib/libmlx5-41mlnx1/src/qp.c:310-332 | a wrapped list is scattered like the straightened one, whatever the bytes, if and only if they are converted, the part before the end takes none of them, or nothing is copied after it |
| Payload.WrappedMeetsIntentExactly | ooo/lib/libmlx5-41mlnx1/src/qp.c:237-333 | a wrapped list is scattered as meant if and only if the bytes are converted or each part has at most one receiver |
| Payload.SecondEntryGetsFirstByte | ooo/lib/libmlx5-41mlnx1/src/qp.c:175-223 | two bytes through two one-byte entries write the first byte twice, unless the end of the ring lies between them |
| Dbrec.Pigeonhole | ooo/lib/libmlx5-41mlnx1/src/dbrec.c:95-117 | a page that is not full has a free line, so the search stops before the surplus bits |
| Dbrec.AddressesDistinct | ooo/lib/libmlx5-41mlnx1/src/dbrec.c:110-117 | different records have different addresses |
| Dbrec.InsidePage | ooo/lib/libmlx5-41mlnx1/src/dbrec.c:110-140 | a record is aligned and inside its page, and masking its address gives back page and line |
| Dbrec.DbPage.Take | ooo/lib/libmlx5-41mlnx1/src/dbrec.c:107-117 | takes the first free line, never a surplus bit |
| Dbrec.DbContext.AddPage | ooo/lib/libmlx5-41mlnx1/src/dbrec.c:53-88 | a new page goes to the front of the list and holds no record |
| Dbrec.DbContext.AllocDbrec | ooo/lib/libmlx5-41mlnx1/src/dbrec.c:90-123 | returns a record that was not live and keeps all others; fails exactly when all pages are full and there is no new one |
| Dbrec.DbContext.FreeDb | ooo/lib/libmlx5-41mlnx1/src/dbrec.c:125-152 | gives exactly the record back whose address it is given; a page leaves the list exactly when its last record does |
| Dbrec.DbContext.UnlinkPage | ooo/lib/libmlx5-41mlnx1/src/dbrec.c:143-149 | taking a page out keeps the list linked both ways |
| Dbrec.DbContext.LiveDistinct | ooo/lib/libmlx5-41mlnx1/src/dbrec.c:90-152 | live records are distinct aligned addresses inside listed pages |
| Dbrec.DbContext.AddressNamesRecord | ooo/lib/libmlx5-41mlnx1/src/dbrec.c:110-140 | the address handed out for a live record names that record |
| Dbrec.RecordAdded | ooo/lib/libmlx5-41mlnx1/src/dbrec.c:107-117 | taking a line adds exactly one record |
| Dbrec.RecordRemoved | ooo/lib/libmlx5-41mlnx1/src/dbrec.c:139-142 | giving a line back removes exactly one record |
| ImplicitLkey.BaseCovers | ooo/lib/libmlx5-41mlnx1/src/implicit_lkey.c:149-156 | the region chosen covers the request if and only if the request ends before the stretch does, or starts in its upper half and ends before the next middle |
| ImplicitLkey.ShortFits | ooo/lib/libmlx5-41mlnx1/src/implicit_lkey.c:237-239 | every request below 2^27 bytes fits, wherever it starts |
| ImplicitLkey.LongMayNotFit | ooo/lib/libmlx5-41mlnx1/src/implicit_lkey.c:158-162 | every longer length has a start at which it does not fit |
| ImplicitLkey.ClosingCheckExactly | ooo/lib/libmlx5-41mlnx1/src/implicit_lkey.c:237-239 | the closing check in 64-bit arithmetic holds exactly for fitting requests below the last stretch, and for those in it that wrap |
| ImplicitLkey.ClosingCheckFails | ooo/lib/libmlx5-41mlnx1/src/implicit_lkey.c:237-239 | eight bytes sixteen before the end of the address space fit their region and fail the check |
| ImplicitLkey.SameSlot | ooo/lib/libmlx5-41mlnx1/src/implicit_lkey.c:149-172 | two accepted addresses with the same keys lie in the same stretch if and only if their upper bits agree |
| ImplicitLkey.SlotsCollide | ooo/lib/libmlx5-41mlnx1/src/implicit_lkey.c:168-172 | two accepted addresses that share a slot but not a stretch |
| ImplicitLkey.RegionCovers | ooo/lib/libmlx5-41mlnx1/src/implicit_lkey.c:207-239 | a region found in the slot of a request covers it if and only if it was registered for the same upper bits and the request fits |
| ImplicitLkey.WrongRegion | ooo/lib/libmlx5-41mlnx1/src/implicit_lkey.c:144-241 | after a request at 2^48 a sign-extended request that fits is handed a region that does not cover it |
| ImplicitLkey.BaseIsHome | ooo/lib/libmlx5-41mlnx1/src/implicit_lkey.c:149-156 | for sign-extended addresses the base depends on the keys alone |
| ImplicitLkey.ImplicitKey.GetRealMr | ooo/lib/libmlx5-41mlnx1/src/implicit_lkey.c:144-241 | finds or registers the region of a request and changes no other entry; it covers the request exactly when it fits and the region was registered for the same upper bits, as it was while only sign-extended addresses are used |
| ImplicitLkey.CoveredOnce | ooo/lib/libmlx5-41mlnx1/src/implicit_lkey.c:257-292 | every address of a prefetched range lies in exactly one piece |
| ImplicitLkey.ImplicitKey.Prefetch | ooo/lib/libmlx5-41mlnx1/src/implicit_lkey.c:257-292 | ends, cuts the range into consecutive pieces, each inside its region, and reaches the end unless a call fails |
| ImplicitLkey.PieceFits | ooo/lib/libmlx5-41mlnx1/src/implicit_lkey.c:270-272 | a piece that stops at a multiple of 2^27 always fits |
| UthashChain.PushFront | ooo/src/rdma/uthash.h:770-779 | an element goes to the front of its bucket; the chains stay linked both ways with exact counts |
| UthashChain.DelInBkt | ooo/src/rdma/uthash.h:792-805 | an element leaves its bucket; the chains stay linked both ways with exact counts |
| UthashChain.FindInBkt | ooo/src/rdma/uthash.h:748-767 | returns an element with the hash value and key, or null when the table has none |
| UthashExpand.MultBounds | ooo/src/rdma/uthash.h:859-864 | the multiplier is zero within the ideal length and otherwise covers the chain up to one element |
| UthashExpand.ExcessUpdate | ooo/src/rdma/uthash.h:859-860 | the excess changes with one chain by what that chain contributes |
| UthashExpand.MoveOne | ooo/src/rdma/uthash.h:857-870 | moving one element keeps the count of elements past the ideal length and the multipliers exact |
| UthashExpand.Redistribute | ooo/src/rdma/uthash.h:842-874 | every element reaches the bucket of its hash value; nonideal items are the total excess |
| Uthash.MapHolds | ooo/src/rdma/uthash.h:399-480 | with unique keys the map holds every element under its key and nothing else |
| Uthash.SameMap | ooo/src/rdma/uthash.h:893-975 | the map does not depend on the order of the list |
| Uthash.MapWithout | ooo/src/rdma/uthash.h:453-480 | leaving one element out takes exactly its key out of the map |
| Uthash.IdealChain | ooo/src/rdma/uthash.h:849-851 | shift and mask compute the ceiling of items per bucket |
| Uthash.Hash.Find | ooo/src/rdma/uthash.h:168-176 | returns the element of the map with the key, or null when there is none |
| Uthash.Hash.Add | ooo/src/rdma/uthash.h:399-418 | adds one key to the map and appends to the order; the table stays consistent whether or not it doubles |
| Uthash.Hash.AddToBkt | ooo/src/rdma/uthash.h:770-789 | doubles the buckets exactly when this one has reached its limit and doubling is not inhibited |
| Uthash.Hash.Enlist | ooo/src/rdma/uthash.h:405-415 | puts an element on the list, making the table for the first |
| Uthash.Hash.Delete | ooo/src/rdma/uthash.h:453-480 | removes one key from the map and one element from the order; the table goes with its last element |
| Uthash.Hash.ExpandBuckets | ooo/src/rdma/uthash.h:836-886 | order and elements stay; ideal length is the ceiling, nonideal items the total excess, and two ineffective doublings inhibit further ones |
| Uthash.Hash.Fsck | ooo/src/rdma/uthash.h:519-566 | the integrity check of the source finds nothing wrong with a valid table |
| UthashOrder.MergeSorted | ooo/src/rdma/uthash.h:920-960 | merging two sorted runs, taking the first on ties, is sorted and stable |
| UthashOrder.PassRuns | ooo/src/rdma/uthash.h:902-965 | a pass turns runs of length k into runs of length 2k |
| UthashOrder.SortFromSorted | ooo/src/rdma/uthash.h:902-972 | doubling run lengths ends in one stable sorted run, for every list |
| UthashOrder.SortIsStable | ooo/src/rdma/uthash.h:893-975 | the sort is a permutation in which every element precedes those that are greater, or equal and were after it |
| UthashSort.Skip | ooo/src/rdma/uthash.h:909-918 | steps over one run |
| UthashSort.MergeRuns | ooo/src/rdma/uthash.h:919-961 | relinking the nodes of two runs yields the merged run, linked both ways |
| UthashSort.SortPass | ooo/src/rdma/uthash.h:903-966 | one pass over the links is one pass of the specification; it counts one merge exactly when the runs covered the list |
| UthashSort.SortList | ooo/src/rdma/uthash.h:895-972 | ends for every list that the 32-bit item count can describe, with head, tail and both links in order |
| UthashSort.Sort | ooo/src/rdma/uthash.h:893-975 | the table stays consistent, its list is the stable sort of what it was, bucket chains and map are unchanged |

## Left out

- Masks by powers of two are written as `%` and `/`; `Words.SlotIsRemainder` and `Words.WrapIsHarmless` connect them with the laps of the ring.
- Completion entries of 128 bytes, timestamps, peer-direct peeking, stall heuristics, the receive-only unpacking variant, and what a poll does after an entry has been consumed (tag matching, striding receive accounting, error reporting).
- The bytes of a completion entry are fields of a datatype; the two readings of a slot share the fields that overlap.
- Sessions of 2 to 65535 entries are an assumption about the device; `CqModel.LazyLengthExactly` says what polls do with the others. The kind of the receive queue of a session is looked up once and taken as constant.
- CqDriver.CompletionQueue.PollOne: the contract ends with the entry that is taken; what the poll then does with it (the work completion it fills in, tag matching, error reporting) is modelled only where it returns an identifier, by `SendRing.SendQueue.PollSend`.
- CqDriver.CompletionQueue.Clean: the receive slots named by removed completions must be distinct posted slots of the shared receive queue, as the hardware guarantees.
- CqDriver.CompletionQueue.Resize: allocation, the kernel command and the early return for an unchanged size are not modelled; what the device writes to the new ring starts behind the marker.
- Rows of the shared receive queue and words of the doorbell bit map are sequences held in arrays and fields, and the second level of the implicit-key table is a sequence held in the first, so aliasing of those inner buffers is not modelled.
- Signatures of shared receive queue entries, and the striding variant of that queue.
- SendRing.SendQueue.PostOne: the contents of a request are handed over as blocks, as many as are written for it; which bytes the opcode branches put there is modelled for inline data only. Refusals of enable requests that depend on the queue they name, failures inside a gather entry, and the calculation flag are not modelled.
- SendSize.AccountSize: the total of inline bytes is counted without bound; the source keeps it in 32 bits, which is the same while no entry has 2^31 bytes or more.
- SendShadow.PostThrough: requests that have no room are not posted through both, because the ring is then no longer in order.
- Doorbells, BlueFlame copies, memory barriers, locks and the burst interface with its multi-packet requests; UMR, memory windows, TSO, raw Ethernet, datagram addressing, masked atomics.
- Send rings hold at most 65536 blocks, because completions carry 16-bit counters.
- SendShadow.RunThrough: one request per call; the source looks at the first request of a chain only.
- Galois-field arithmetic is any ring of characteristic two, and the formatting bit of a coefficient is a flag beside its value.
- EcUpdate.GetUpdateMat: no more codes are announced than the calculation has, and no more rows than a pool matrix; more would leave the pool buffer. By `EcSplit.SectionShape` the splitter announces the right number for every section.
- EcJobs.GetDecodeMat: for three outputs the loop reads one byte past the section's columns, so the caller's matrix must be one byte longer.
- EcJobs.SplitUpdate: a section whose matrix or post fails is reported to the joined completion and the loop goes on; that is modelled by `EcJoin.RunJob`, not here. The decode entry point counts its erased blocks itself, the update entry point takes the number of updated codes from the caller.
- EcJobs.SetDecodeKlms: which blocks become outputs and inputs, not the lengths, keys and padding entries written beside them.
- EcJobs.SplitDecodeUsesItsColumn: that the caller's decode matrix recovers the erased blocks is the caller's business.
- EcJoin.RunJob: the pool of joined completions is a counter of how often a completion was put back; locks are atomic steps.
- The polling variants of the erasure-coding calls.
- Uthash.Hash.Add: key and hash value of an element are fixed when its handle is built, keys in the table are unique, the hash function is a parameter, and `unsigned` counters are unbounded. Out-of-memory recovery, the Bloom filter, sorted insertion, selection and multiple handles per element are not modelled.
- Uthash.Hash.Delete: the table's storage is not freed explicitly; a table without a head has no contents.
- UthashSort.Sort: lists of at most 2^32 elements, which is more than the item count can describe; the comparison is a function of the two elements that does not read their links.
- Dbrec.DbContext.FreeDb: an address on a listed page must be that of a live record, as for any allocator.
- ImplicitLkey.ImplicitKey.GetRealMr: allocation, registration and prefetch commands are answers passed in; the lock-free reads are atomic steps.
