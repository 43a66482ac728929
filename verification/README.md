# Verified model of the PS2 Linux boot stack

A Dafny model of the hard parts of a PlayStation 2 Linux boot environment: the
"TGE" SBIOS, which runs the traffic between the main processor (EE) and the I/O
processor (IOP), and the self-contained algorithms around it. `dafny verify
dfyconfig.toml` checks everything.

Each component has a specification on values, lemmas about it, and, where the
source updates globals or buffers in place, a class or methods with the source's
loops, proved equal to the specification. Concurrency is a state machine: an
`Event` is one section that runs undisturbed, a run is any sequence of enabled
events, and the main theorems hold for every run.

| files | component |
|---|---|
| `SifDmaRing`, `SifDmaProofs`, `SifDmaUnsafe`, `SifDmaStream`, `SifDmaDriver` | the 31-slot DMA tag ring, filled by software while the controller empties it |
| `SifRpcState`, `SifRpcProofs`, `SifRpcDriver` | the RPC client layer: packet table, client headers, responses, callbacks |
| `CdvdState`, `CdvdProofs`, `CdvdLocks`, `CdvdRuns`, `CdvdBound`, `CdvdDriver` | CD/DVD calls: two locks, staged initialisation, callbacks |
| `CdvdRpc` | the CD/DVD calls on top of the RPC layer |
| `SmapTx` | the transmit thread of the slim network driver |
| `Mailbox` | the one-byte console mailbox between the processors |
| `ShiftRegister`, `Crc32`, `CrcTerms`, `ByteImage`, `CrcSections`, `SectionTable` | the CRC, and the table of section CRCs in the loader image |
| `ElfLoader`, `ElfAccept` | checking, copying and verifying a 32-bit kernel |
| `Calendar` | PS2 file system time stamps |
| `BlockBitmap`, `UsedBlocks` | the block bitmap of the PS2 file system, and the count of used blocks |
| `ConfigText`, `ConfigFormat` | the configuration file |
| `Semaphores` | the kernel's semaphore table and its free list |

## Where code and intent differ

The model follows the code. Each departure has a lemma that shows the failure and
one that says exactly when the code is right.

- A full DMA ring and an empty one look the same once nothing is in transfer.
  `FreeCountExact`: after an accepted request the computed free count is still at
  most the true one if and only if the request was safe, that is, tags were still
  unfetched, or its tags and the one in transfer number at most 30. After an
  unsafe one (30 or 31 tags) the ring is full and counts 31 free; the data is
  lost by the next request, which is accepted and overwrites the first slot still
  to be read (`TwoRequestsFromPowerUp`). `SafeIsExact`: whatever safe requests
  follow, the IOP receives the accepted data in order if and only if the request
  was safe. A refused request restarts the channel too, and with nothing queued it
  sends an old slot again (`RefusedOverruns`), or goes past a zero one and leaves an
  empty ring that counts no slot free (`RefusedPassesBlank`). `UsableIsExact`: with
  the free count at rest, `Safe` is exact for every request. 29 tags are always safe.
- A failed RPC send frees the packet but not the client, although the caller is
  told to retry later. `WedgedExactly`: over every run a client is wedged if and
  only if one of its sends failed; `RetryNeverHelps`: from then on every request
  of that client is refused.
- `sbcall_cdvdinit` reads the stage before it takes the lock, so a call can take
  the lock late, for a stage that is over. Four things go wrong, each shown by a
  run from power on.
  - A callback finds another stage than the one that started it. A late call never
    finds its own (`StaleForever`), and it can spoil a call that was not late
    (`FreshYetOvertaken`). `FreshIsExact`: when an init call gets its lock, every
    init callback in all continuations without another late call finds its own
    stage if and only if the stage read is still current, or the call will be
    refused because its client is stuck.
  - A callback unlocks a mutex nobody holds and leaves the other one locked for
    good (`OverlappingInits`). `LocksExact`: over every run each taken lock keeps
    its one holder if and only if every init callback finds a stage of at most 5
    with the lock its call took. `HoldExact`: mutual exclusion alone holds over
    every run if and only if every init callback finds all stages over, or a
    stage whose lock is taken and held by no other call.
  - A callback releases the lock of a command whose buffers are in use, and the
    next command overwrites them (`OverwrittenBuffer`). `EveryHarmlessRun`: in
    runs that keep mutual exclusion this never happens. `ExposesExactly`: an init callback
    lays buffers open if and only if the stage it finds has another lock and a
    command with its buffers in use holds that lock; `ExposedIsWritten`: then
    another command can write them.
  - A late call for stage 0 forgets the bindings that later stages have made; after
    the last stage every command is then refused for good (`LateInitForgets`,
    `LostForever`). `BoundExact`: over every run the bind variables say which
    stages are over if and only if no call for stage 0 gets to its request once
    stage 2 is over.

  `EverySerialRun`: issuing init calls one at a time is enough for all of it. That
  a call accepted with 0 gets its end function called exactly once needs nothing
  of the kind (`EndsExact`, `Completes`).
- `to_ps2time` chooses the month without regard to leap years
  (`LeapDayIsMissed`). `ToTimeExact`: the date is right if and only if the time
  is not between 29 February and the end of a leap year; `RoundTrip`: there the
  stamp is one day late. Before 1970 `BeforeEpoch` leaves exactly one second that
  converts back to itself. The leap test of `from_ps2time` looks at the seconds
  instead of the year; `YearLoopDays` shows why that does no harm before 2100.
- `verify_sections32` tests the first byte of the zero fill again and again.
  `VerifyExact`: it decides whether the segment is in memory when the fill is at
  most one byte; `DirtyFillPasses`: for every longer fill it does not.
- The segment end in `check_sections32` is a 32-bit sum (`WrappedKernel`, a
  whole accepted file).
  `InsideIffNoWrap`: an accepted table stays inside the window if and only if no
  sum wraps.
- The block search also scans the padding behind the last block.
  `PaddingScanned`: it hands out a padding bit if and only if every block is used
  and some padding bit is clear.
- Loading a video mode resets the video parameter. `RoundTripExact`: a saved
  configuration is restored if and only if no video parameter is followed by a
  mode item whose default differs from it; `VideoModeFirst`: the registration
  order in use has the mode first.
- The last character of a configuration line is dropped as its newline. `LastLine`:
  a last line without a newline loses the last character of its value.
- The zero fill of a segment is a signed 32-bit number. `FillExact`: it is the whole
  rest of the segment if and only if that is below 2^31.

## Model

| member | source | states |
|---|---|---|
| `SifDmaProofs.FreeTagsMeaning` | TGE/sbios/sifdma.c:219-240 | the count read from the hardware pointer is 30 less the unfetched tags; with none unfetched only QWC decides between 30 and 31 |
| `SifDmaProofs.AppendAllExtends` | TGE/sbios/sifdma.c:168-217 | appending a request uses exactly the counted number of slots, writes its packets and nothing else behind the queued tags, touches no queued slot, and leaves the ids REF, ..., REF, REFE |
| `SifDmaProofs.AcceptsMeaning` | TGE/sbios/sifdma.c:306-330 | a request is refused exactly when it does not fit behind the unfetched tags, and id 0 means refused |
| `SifDmaProofs.SetDmaCorrect` | TGE/sbios/sifdma.c:285-339 | a safe request keeps the ring invariant; what is outstanding grows by exactly its packets if accepted, also when the tag in transfer is rewound, and not at all if refused |
| `SifDmaProofs.SetDmaKeepsUnconsumed` | TGE/sbios/sifdma.c:242-331 | no unconsumed tag and no staging buffer still to be read is overwritten; the one edit is REFE to REF on the last tag |
| `SifDmaProofs.SafeWhenSmall` | TGE/sbios/sifdma.c:308-317 | at most 29 tags is always safe |
| `SifDmaUnsafe.FreeCountBound` | TGE/sbios/sifdma.c:219-240 | with the ring in order the computed free count never exceeds the true one, counted as slots written less slots fetched |
| `SifDmaUnsafe.FreeCountExact` | TGE/sbios/sifdma.c:219-240 | after an accepted request it still does not if and only if the request was safe; otherwise it is 31 against 0 |
| `SifDmaUnsafe.SecondOverwrites` | TGE/sbios/sifdma.c:285-339 | after any accepted unsafe request the next request of one tag is accepted and counts as safe, 32 tags are in 31 slots, and it lies in the first slot still to be read |
| `SifDmaUnsafe.NextRequestLoses` | TGE/sbios/sifdma.c:285-339 | when the channel has then stopped, that last request is all that was sent |
| `SifDmaUnsafe.UnsafeBreaksOrder` | TGE/sbios/sifdma.c:233-234 | so every accepted unsafe request has a continuation of safe requests in which the data received is no prefix of the data accepted |
| `SifDmaUnsafe.RefusedOverruns` | TGE/sbios/sifdma.c:333-335 | a refused request restarts a channel with nothing queued, which then sends more than was accepted if its next slot was used before |
| `SifDmaUnsafe.SafeIsExact` | TGE/sbios/sifdma.c:233-234 | in all continuations with safe requests the data received stays a prefix of the data accepted if and only if the request was safe, for every request that is accepted or meets a next slot that was used before |
| `SifDmaUnsafe.KnownRun` | TGE/sbios/sifdma.c:168-217 | over every run of safe requests from zeroed slots, a slot is zero or has held a tag |
| `SifDmaUnsafe.RefusedPassesBlank` | TGE/sbios/sifdma.c:333-335 | with nothing queued a refused request that meets a zero slot sends only what was accepted, but leaves an empty ring that counts no slot free |
| `SifDmaUnsafe.NothingAccepted` | TGE/sbios/sifdma.c:306-330 | and while no slot counts as free every request is refused |
| `SifDmaUnsafe.UsableIsExact` | TGE/sbios/sifdma.c:285-339 | for every request: in all continuations with safe requests the data stays in order and a stopped channel counts 31 free, if and only if the request was safe |
| `SifDmaUnsafe.TwoRequestsFromPowerUp` | TGE/sbios/sifdma.c:285-339 | from power-up: a request of 31 tags, then any of one tag; both are accepted and only the second arrives |
| `SifDmaProofs.FetchKeeps` | TGE/sbios/sifdma.c:145-153 | fetching a tag consumes one slot and loses, repeats or reorders nothing |
| `SifDmaProofs.MoveKeeps` | TGE/sbios/sifdma.c:168-217 | moving a quadword sends exactly the first outstanding one |
| `SifDmaProofs.DmacCorrect` | TGE/sbios/sifdma.c:128-133 | every controller step, the jump back included, sends a prefix of what is outstanding and comes closer to rest |
| `SifDmaProofs.StoreKeeps` | TGE/sbios/sifdma.c:196-202 | writing memory the controller has not still to read changes nothing it will send |
| `SifDmaProofs.StepInOrder` | TGE/sbios/sifdma.c:285-339 | each event keeps: sent so far + outstanding = accepted |
| `SifDmaProofs.RunInOrder` | TGE/sbios/sifdma.c:285-339 | the same over every run |
| `SifDmaProofs.DeliveredInOrder` | TGE/sbios/sifdma.c:117-339 | for every interleaving from power-up the IOP receives exactly the accepted transfers, tag then payload, in acceptance order |
| `SifDmaProofs.Drains` | TGE/sbios/sifdma.c:285-339 | left alone, the controller sends everything accepted and stops |
| `SifDmaStream.ReceivedInOrder` | TGE/sbios/sifdma.c:168-217 | an IOP that reads tag, word count and payload off the stream gets, over every run of safe requests from power-up, the accepted transfers in order, each at the low 24 bits of its address, with its two flags, no other bit, and the fewest quadwords that hold its bytes; all of them once the channel is at rest |
| `SifDmaStream.TagOnly` | TGE/sbios/sifdma.c:179-186 | a transfer of a bare tag has the same address and flags, and counts the words behind it |
| `SifDmaStream.RequestIrqs` | TGE/sbios/sifdma.c:179-203 | the tags of a request carry its interrupt flags: the last tag of each transfer as asked for, the first of two never |
| `SifDmaStream.SetupIrqs` | TGE/sbios/sifdma.c:242-276 | neither rewind nor relink changes an interrupt flag |
| `SifDmaStream.CountFits` | TGE/sbios/sifdma.c:179-203 | every tag of a sendable transfer has a quadword count that fits 16 bits |
| `SifDmaStream.IdReadsBack` | TGE/sbios/sifdma.c:320-322 | tag count, first slot and lap can be read back from a request id |
| `SifDmaStream.IdsNumberTags` | TGE/sbios/sifdma.c:146-153 | over every run from power-up a request accepted after n tags has slot n modulo 31 and lap n / 31 modulo 2^16 in its id |
| `SifDmaDriver.Driver.constructor` | TGE/sbios/sifdma.c:117-141 | sif_dma_init establishes the initial ring, its slots zero |
| `SifDmaDriver.Driver.SetNextDmaTag` | TGE/sbios/sifdma.c:146-153 | index and 16-bit lap counter advance as specified |
| `SifDmaDriver.Driver.CopyPayload` | TGE/sbios/sifdma.c:208-210 | the copy loop writes exactly the first quadwords of the staging buffer of one slot |
| `SifDmaDriver.Driver.DmaTransfer` | TGE/sbios/sifdma.c:168-217 | refines `Append` in all three forms, split, short and tag only |
| `SifDmaDriver.Driver.NumberOfFreeDmaTags` | TGE/sbios/sifdma.c:219-240 | refines `FreeTags` |
| `SifDmaDriver.Driver.SetupLastTag` | TGE/sbios/sifdma.c:242-276 | refines `SetupTag`: rewind of the running tag or REFE to REF |
| `SifDmaDriver.Driver.CountTags` | TGE/sbios/sifdma.c:309-314 | the loop counts the tags of the request |
| `SifDmaDriver.Driver.AppendEach` | TGE/sbios/sifdma.c:326-330 | the append loop refines `AppendAll` |
| `SifDmaDriver.Driver.SifSetDma` | TGE/sbios/sifdma.c:285-339 | refines `SetDma` and returns its id |
| `SifRpcState.FreeSlot` | TGE/sbios/sifrpc.c:76-79 | the lowest packet that is not allocated |
| `SifRpcProofs.StepKeepsOwners` | TGE/sbios/sifrpc.c:64-237 | every section keeps allocated packets in one-to-one correspondence with requests in progress or in their callback |
| `SifRpcProofs.ReleaseKeeps` | TGE/sbios/sifrpc.c:323-396 | a request frees its own packet, once |
| `SifRpcProofs.CallBackOnce` | TGE/sbios/sifrpc.c:386-391 | a callback adds one call, with the request's own end function and argument |
| `SifRpcProofs.StepCalledOnce` | TGE/sbios/sifrpc.c:336-396 | every step keeps: each accepted request with an end function has had it called once if answered, not at all otherwise |
| `SifRpcProofs.StepInv` | TGE/sbios/sifrpc.c:64-396 | all of it together, also when callbacks issue requests |
| `SifRpcProofs.StepIds` | TGE/sbios/sifrpc.c:86-96 | ids of packets and headers follow the serial numbers until the 32-bit counter wraps |
| `SifRpcProofs.CheckStatExact` | TGE/sbios/sifrpc.c:704-718 | SifCheckStatRpc reports 1 if and only if the client's own request is claimed and unanswered, also after its old packet went to another client |
| `SifRpcProofs.RunInv` | TGE/sbios/sifrpc.c:64-396 | every run keeps the invariant |
| `SifRpcProofs.EveryRun` | TGE/sbios/sifrpc.c:64-718 | from the initial table: packets match requests, end functions are called once per response with their own argument, the status query is exact |
| `SifRpcProofs.FailedSendWedges` | TGE/sbios/sifrpc.c:230-233 | a send leaves its client wedged if and only if it fails |
| `SifRpcProofs.WedgedStepExact` | TGE/sbios/sifrpc.c:113-396 | after any section a client is wedged if and only if it was before or the section is a failed send of it |
| `SifRpcProofs.WedgedExactly` | TGE/sbios/sifrpc.c:113-396 | over every run from the initial table: wedged if and only if one of its sends failed |
| `SifRpcProofs.WedgedStep` | TGE/sbios/sifrpc.c:195-203 | a wedged client stays wedged and is refused |
| `SifRpcProofs.WedgedForever` | TGE/sbios/sifrpc.c:195-203 | over every run |
| `SifRpcProofs.RetryNeverHelps` | TGE/include/tge_sbios.h:21-22 | after a failed send every later request of the client is refused, whatever happens in between |
| `SifRpcProofs.AnswerReleases` | TGE/sbios/sifrpc.c:365-367 | a response frees the client for its next request |
| `SifRpcDriver.Driver.constructor` | TGE/sbios/sifrpc.c:64-74 | an empty packet table |
| `SifRpcDriver.Driver.RpcGetPacket` | TGE/sbios/sifrpc.c:64-101 | the search loop refines `GetPacket`, id counter included |
| `SifRpcDriver.Driver.RpcPacketFree` | TGE/sbios/sifrpc.c:323-333 | refines `FreePacket` |
| `SifRpcDriver.Driver.ClaimClient` | TGE/sbios/sifrpc.c:124-141 | refines `Claim` |
| `SifRpcDriver.Driver.Request` | TGE/sbios/sifrpc.c:113-237 | each result code if and only if: a call with an unaligned buffer; else no packet or a busy client; else a failed send; else success. A refusal changes no client and no allocation; a failed send frees the packet and not the client; success holds a fresh packet |
| `SifRpcProofs.RequestIsSections` | TGE/sbios/sifrpc.c:113-237 | what the routine leaves is what its sections allocate, take, send and release leave, for every state |
| `SifRpcProofs.AnswersCounted` | TGE/sbios/sifrpc.c:156-166 | over every run the count a waiting caller polls is 0 while its request is unanswered |
| `SifRpcProofs.AnswerCounted` | TGE/sbios/sifrpc.c:346-348 | and the answer makes it 1 |
| `SifRpcProofs.IdsDiffer` | TGE/sbios/sifrpc.c:86-96 | no packet id comes back within 2^32 - 2 packets, the wrap of the counter included |
| `SifRpcDriver.Driver.RequestEnd` | TGE/sbios/sifrpc.c:336-367 | refines `EndRequest` |
| `SifRpcDriver.Driver.SifCheckStatRpc` | TGE/sbios/sifrpc.c:704-718 | refines `CheckStat` |
| `CdvdProofs.UnlockKeeps` | TGE/sbios/mutex.c:38-54 | an unlock always finds its mutex locked, by its own call |
| `CdvdProofs.OneInit` | TGE/sbios/cdvd.c:209-304 | no two init calls are under way together, unless one will be refused because its client is stuck |
| `CdvdProofs.CallbackKeeps` | TGE/sbios/cdvd.c:131-202 | an init callback finds the stage that started it and is about to release the lock that stage took |
| `CdvdProofs.StepInv` | TGE/sbios/cdvd.c:131-341 | every step of any call or callback keeps the lock discipline, send failures included |
| `CdvdProofs.RunInv` | TGE/sbios/cdvd.c:131-464 | over every run with fresh stages |
| `CdvdProofs.EveryRun` | TGE/sbios/ncmd.c:890-947 | over every run without a late init call: no unlock of an unlocked mutex; one holder per lock; a command that has filled its buffers, is with the IOP or in its callback is the one they were last written for; callbacks at their own stage |
| `CdvdProofs.WritesAlone` | TGE/sbios/ncmd.c:317-330 | wherever no lock has two holders: whoever writes the command number, send buffer or receive buffer behind a lock holds it, and no other command has those buffers in use |
| `CdvdProofs.EndsExact` | TGE/sbios/scmd.c:103-226 | over every run whatever: the end function of a call has been called once if the call is done and not before, and a client in use is that of one call in flight |
| `CdvdRuns.Completes` | TGE/sbios/scmd.c:103-226 | in every such state a call that returned 0 reaches its end function, once, in at most four steps of its own after the response |
| `CdvdProofs.CounterMonotone` | TGE/sbios/cdvd.c:131-202 | the stage never goes back |
| `CdvdProofs.LockOutcome` | TGE/sbios/cdvd.c:214-299 | taking the lock makes an init call stale if and only if its stage is no longer current |
| `CdvdLocks.LockAnswered` | TGE/sbios/cdvd.c:131-202 | an init callback leaves every lock with its one holder if and only if the stage it finds is at most 5 and has the lock its call took |
| `CdvdLocks.LockStepExact` | TGE/sbios/mutex.c:16-54 | all other steps, stale or not, keep: a lock is taken if and only if it has a holder, one, and no unlock failed |
| `CdvdLocks.LocksExact` | TGE/sbios/cdvd.c:131-464 | so over every run from power on the mutexes are in order throughout if and only if all init callbacks are of that kind |
| `CdvdLocks.HoldStepExact` | TGE/sbios/mutex.c:16-54 | a step keeps mutual exclusion (a held lock is taken, by one call, and no unlock failed) if and only if it is not an init callback about to release a free lock or someone else's |
| `CdvdLocks.HoldExact` | TGE/sbios/cdvd.c:131-464 | so over every run from power on mutual exclusion holds throughout if and only if no init callback is of that kind |
| `CdvdLocks.FreshIsBenign` | TGE/sbios/cdvd.c:209-304 | a run without late init calls has only init callbacks that find a stage with the lock of their call |
| `CdvdLocks.BenignIsHarmless` | TGE/sbios/cdvd.c:131-202 | and such a run has none that breaks mutual exclusion |
| `CdvdLocks.EveryHarmlessRun` | TGE/sbios/ncmd.c:890-947 | over every run without such a callback, late calls or not: mutual exclusion, and no buffer written while another command has it in use |
| `CdvdLocks.ExposesExactly` | TGE/sbios/cdvd.c:131-202 | an init callback leaves buffers in use behind a free lock if and only if the stage it finds has another lock that a command with its buffers in use holds |
| `CdvdRuns.ExposedIsWritten` | TGE/sbios/cdvd.c:440-464 | from every state with such buffers another command can write them while they are in use |
| `CdvdRuns.OverwrittenBuffer` | TGE/sbios/cdvd.c:440-464 | a run from power on: a late callback releases the lock of a disk ready call in flight and the next one writes its buffer |
| `CdvdProofs.StaleStep` | TGE/sbios/cdvd.c:131-304 | a stale call stays stale |
| `CdvdProofs.StaleForever` | TGE/sbios/cdvd.c:131-304 | in no continuation does its callback find the stage it was started at |
| `CdvdRuns.FreshYetOvertaken` | TGE/sbios/cdvd.c:209-304 | a run from power on: a call that takes its lock at the current stage is answered at the next one, because of an earlier late call |
| `CdvdRuns.FreshIsExact` | TGE/sbios/cdvd.c:209-304 | when an init call gets its lock: in all continuations without a late call every init callback finds its own stage if and only if the call is not late, or its client is stuck |
| `CdvdProofs.SerialFresh` | TGE/sbios/cdvd.c:209-304 | init calls issued one at a time always take the lock at the current stage |
| `CdvdProofs.EverySerialRun` | TGE/sbios/cdvd.c:209-304 | so such a caller gets the whole invariant, whatever else is in progress |
| `CdvdRuns.IssueInit` | TGE/sbios/cdvd.c:209-304 | the state after an undisturbed init call has been accepted, for every stage |
| `CdvdRuns.AnswerInit` | TGE/sbios/cdvd.c:131-202 | the state after its callback, which acts on the stage it finds |
| `CdvdRuns.OverlappingInits` | TGE/sbios/cdvd.c:209-304 | a run from power on in which a callback unlocks a free mutex and the other mutex stays locked with no holder |
| `CdvdBound.EveryInit` | TGE/sbios/cdvd.c:131-202 | over every run with init calls one at a time: the disk ready, N and S bind variables are set exactly from stage 3, 5 and 6 on, the client of every stage that is over has a server, a command with its lock goes on to its request exactly if its stages are over, and a command that is sent has a server |
| `CdvdBound.BoundStepExact` | TGE/sbios/cdvd.c:214-232 | a step keeps the bind variables in step with the stage if and only if it is not a call for stage 0 that forgets bindings |
| `CdvdBound.BoundExact` | TGE/sbios/cdvd.c:131-304 | so over every run from power on |
| `CdvdBound.LateInitForgets` | TGE/sbios/cdvd.c:214-232 | a run from power on: after all six stages a late call for stage 0 forgets all bindings |
| `CdvdBound.LostForever` | TGE/sbios/scmd.c:515-541 | from then on no command gets past its test, whatever happens |
| `CdvdBound.AllStages` | TGE/sbios/cdvd.c:209-304 | six undisturbed calls complete the initialisation |
| `CdvdBound.CommandsTogether` | TGE/sbios/ncmd.c:890-907 | afterwards any N-command and any S-command are with the IOP together, each on its own client, while a disk ready call is turned away |
| `CdvdBound.ReadyIssued` | TGE/sbios/cdvd.c:440-464 | a disk ready call alone is issued on its own client under the S-lock |
| `CdvdBound.InitTurnsAway` | TGE/sbios/cdvd.c:214-299 | while an init call is with the IOP, S-commands and disk ready calls are turned away unless it is at stage 4, and N-commands if it is |
| `CdvdBound.NeverPending` | TGE/sbios/ncmd.c:890-907 | in every state of a run without late calls, whoever holds a lock finds no request pending on the client behind it |
| `CdvdRpc.CallTaken` | TGE/sbios/sifrpc.c:113-153 | the sections of a call on an idle client leave it in use by that thread, or stuck if the send fails; a bind forgets the server |
| `CdvdRpc.CallRefused` | TGE/sbios/sifrpc.c:195-203 | a call on any other client is refused and changes nothing for any client |
| `CdvdRpc.StartSimulates` | TGE/sbios/sifrpc.c:64-74 | the power-on states of the two models simulate each other |
| `CdvdRpc.StatIsCheck` | TGE/sbios/ncmd.c:890-907 | before the id counter wraps, SifCheckStatRpc reports a pending request if and only if the abstract client is in use, or a failed send is just giving its packet back |
| `CdvdRpc.RequestSimulates` | TGE/sbios/sifrpc.c:113-237 | the one-step request of the CD/DVD model is what the sections of a bind or call do to all five clients and their servers |
| `CdvdRpc.NoPacketSimulates` | TGE/sbios/sifrpc.c:80-83 | without a free packet nothing changes on either side |
| `CdvdRpc.ResponseSimulates` | TGE/sbios/sifrpc.c:336-367 | the same for a response |
| `CdvdRpc.ResponseIsOwn` | TGE/sbios/sifrpc.c:350-364 | the callback that runs then is that of the thread that made the request |
| `CdvdDriver.Driver.SbiosTryLock` | TGE/sbios/mutex.c:16-33 | refines `TryLock` |
| `CdvdDriver.Driver.SbiosUnlock` | TGE/sbios/mutex.c:38-54 | refines `Unlock`, with its error message counted |
| `CdvdDriver.Driver.CdvdLock` | TGE/sbios/ncmd.c:890-907 | 0 if and only if the mutex was free and no request of the client is pending; otherwise nothing changed |
| `CdvdDriver.Driver.CdCheckCmd` | TGE/sbios/scmd.c:515-533 | 1 with the lock held if and only if free, not pending and bound; otherwise 0 and nothing changed |
| `CdvdDriver.Driver.CdvdInitCallback` | TGE/sbios/cdvd.c:131-202 | refines `InitCallback` and the unlock of the stage found; what that makes of a run is `EveryInit` |
| `SmapTx.StepInv` | driver_slim_smaprpc/smaprpc.c:147-249 | sent ++ in flight ++ queue = submitted, and no sleep with frames queued, after every section |
| `SmapTx.RunInv` | driver_slim_smaprpc/smaprpc.c:403-415 | over every interleaving |
| `SmapTx.EveryRun` | driver_slim_smaprpc/smaprpc.c:172-249 | since open no frame is lost, duplicated or reordered, and the thread is never asleep while frames wait |
| `SmapTx.Drains` | driver_slim_smaprpc/smaprpc.c:195-249 | if calls are accepted, everything submitted is sent |
| `SmapTx.Sleeps` | driver_slim_smaprpc/smaprpc.c:195-249 | with nothing to send it goes to sleep within nine steps, from wherever it is |
| `Mailbox.StepInv` | sharedmem/sharedmem.c:54-66 | every byte access of either side keeps the hand-over |
| `Mailbox.RunInv` | TGE/sbios/iopmemdebug.c:84-96 | over every interleaving |
| `Mailbox.EveryRun` | TGE/sbios/iopmemdebug.c:71-98 | what is printed is a prefix of what was put, at most one behind |
| `Mailbox.PrintedSoon` | sharedmem/sharedmem.c:54-66 | every character put is printed within two steps of the IOP, whatever the EE does |
| `Mailbox.Drains` | TGE/sbios/iopmemdebug.c:84-96 | from every state all calls in progress can complete, innermost first, in six steps each |
| `Crc32.CalcCrc` | crc32gen/crc32gen.c:17-38 | the loops compute `Crc` |
| `Crc32.FeedByte` | loader/crc32check.c:28-39 | the inner loop feeds the bits of one byte, low bit first |
| `Crc32.StepWord` | crc32gen/crc32gen.c:28-34 | one turn on the 32-bit word is one step of the shift register |
| `ShiftRegister.MulStep` | crc32gen/crc32gen.c:15-15 | one more coefficient of a factor adds one shifted copy of the other, so long division goes bit by bit |
| `ShiftRegister.DivideStep` | crc32gen/crc32gen.c:28-34 | one register step is one step of long division |
| `ShiftRegister.RegisterDivides` | crc32gen/crc32gen.c:17-38 | message x^32 = quotient generator + register |
| `Crc32.CrcIsRemainder` | crc32gen/crc32gen.c:17-38 | calc_crc returns a remainder of the message times x^32 |
| `CrcTerms.MaskTerms` | crc32gen/crc32gen.c:15-15 | the mask has exactly the exponents 26, 23, 22, 16, 12, 11, 10, 8, 7, 5, 4, 2, 1 and 0 of the IEEE 802.3 generator |
| `CrcTerms.CrcByExponents` | crc32gen/crc32gen.c:17-38 | with generator, message and result given by exponents (bit n of byte i is message bit 8i + n), the result is the remainder of the message times x^32 |
| `CrcTerms.CrcOnlyByExponents` | crc32gen/crc32gen.c:17-38 | and it is the only word that is |
| `ShiftRegister.QuotientUnique` | crc32gen/crc32gen.c:15-15 | a monic factor determines the other from the leading coefficients |
| `ShiftRegister.RemainderUnique` | crc32gen/crc32gen.c:15-15 | there is only one remainder |
| `ShiftRegister.RegisterLinear` | crc32gen/crc32gen.c:28-34 | the register is linear in start value and message |
| `ShiftRegister.RegisterInjective` | crc32gen/crc32gen.c:28-34 | equal continuations keep different registers different |
| `ShiftRegister.ClearedBy` | crc32gen/crc32gen.c:28-34 | at most 32 bits clear exactly one register |
| `Crc32.MessageInjective` | crc32gen/crc32gen.c:29-29 | different buffers are different messages |
| `Crc32.BurstDetected` | loader/crc32check.c:21-42 | two different buffers of one length that differ only in a window of 32 processed bits have different CRCs |
| `ByteImage.StoredWord` | crc32gen/crc32gen.c:91-92 | a word written little endian reads back |
| `CrcSections.FindSegment` | crc32gen/crc32gen.c:40-67 | the loop returns size and offset of the first section with the name, or -1 |
| `CrcSections.SegmentFrame` | crc32gen/crc32gen.c:40-67 | a lookup does not change when bytes outside headers and names change |
| `CrcSections.PatchEntry` | crc32gen/crc32gen.c:91-92 | writes crc and file offset and no other byte |
| `CrcSections.FixEntry` | crc32gen/crc32gen.c:82-93 | one entry gets the CRC of its section, the rest is unchanged |
| `CrcSections.ProgressStep` | crc32gen/crc32gen.c:81-94 | earlier entries and all sections survive the next patch |
| `CrcSections.FixSegments` | crc32gen/crc32gen.c:69-101 | every found section's stored CRC is that of the section in the final file; only the table changes |
| `CrcSections.Crc32Check` | loader/crc32check.c:86-111 | returns 0 if and only if every entry matches memory |
| `CrcSections.FixedEntryPasses` | loader/crc32check.c:92-99 | a fixed entry passes on every memory that holds its section unchanged |
| `CrcSections.CheckFixedImage` | loader/crc32check.c:86-111 | so after fix_segments the check returns 0 on an unchanged image |
| `SectionTable.SegmentExact` | crc32gen/crc32gen.c:40-67 | by the words of the file: size and offset of the first section of the name, or -1 |
| `SectionTable.TableName` | crc32gen/crc32gen.c:69-101 | the table is the section ".crc32" |
| `SectionTable.FixedByWords` | crc32gen/crc32gen.c:69-101 | a fixed entry holds at its words 0 and 4 the CRC and the file offset of the section it names |
| `SectionTable.PassesByWords` | loader/crc32check.c:86-111 | crc32check compares word 0 of an entry with the CRC of memory between words 8 and 12 |
| `SectionTable.CrcOfExact` | loader/crc32check.c:21-42 | that CRC is the remainder by the IEEE 802.3 generator |
| `ElfLoader.KMemCpy` | loader/loader.c:595-605 | copies the bytes and no others |
| `ElfLoader.CopySegment` | loader/loader.c:753-769 | file bytes, then zeros, and no other byte |
| `ElfLoader.CheckHeader` | loader/loader.c:676-745 | code and new highest address of one header |
| `ElfLoader.CheckAndLoad` | loader/loader.c:670-771 | one turn of the loop: code, highest, entry flag and destination |
| `ElfLoader.CheckTable` | loader/loader.c:670-771 | the loop computes `TableCode`, `Highest`, entry coverage and the loaded destination |
| `ElfLoader.WindowFits` | loader/loader.c:753-769 | a destination of the size of the window holds every accepted segment when no sum wraps |
| `ElfLoader.CheckSections32` | loader/loader.c:626-778 | accepted with a destination: old contents overlaid with the segments in order; with disjoint segments, byte k of each is file byte p_offset + k, or zero behind the file part, at its address less `start` |
| `ElfAccept.AcceptExact` | loader/loader.c:626-778 | by the words of the file: accepted if and only if magic, entry window and every listed header are right and some header covers the entry point |
| `ElfAccept.RefuseExact` | loader/loader.c:626-778 | and otherwise the code of the first test that fails, for the headers that of the first fault of the first bad one |
| `ElfAccept.HeaderExact` | loader/loader.c:693-742 | the code of a header names its first fault |
| `ElfLoader.HighestIsMaximum` | loader/loader.c:738-743 | highest is the maximum segment end, and attained |
| `ElfLoader.EntryLoaded` | loader/loader.c:749-776 | the entry point of an accepted kernel lies in a loaded segment |
| `ElfLoader.TableAccepted` | loader/loader.c:670-747 | an accepted table has only acceptable headers |
| `ElfLoader.InsideIffNoWrap` | loader/loader.c:738-748 | an accepted table stays in the window if and only if no sum wraps |
| `ElfLoader.WrappedKernel` | loader/loader.c:738-738 | a whole file that is accepted and does not |
| `ElfLoader.LoadFrame` | loader/loader.c:976-997 | loading writes only bytes of segments |
| `ElfLoader.LoadHolds` | loader/loader.c:976-997 | with disjoint segments each one is in memory afterwards |
| `ElfLoader.VerifyExact` | loader/loader.c:1103-1121 | with a fill of at most one byte verification succeeds if and only if the segment is in memory |
| `ElfLoader.DirtyFillPasses` | loader/loader.c:1115-1120 | with any longer fill a dirty last byte passes |
| `ElfLoader.CopyStaysBelow` | loader/loader.c:2072-2095 | the copy writes only below the highest segment end |
| `ElfLoader.SegmentHeld` | loader/loader.c:955-1000 | after the copy of a table with disjoint segments every segment is in memory, file bytes and zero fill |
| `ElfLoader.CopyVerifies` | loader/loader.c:1070-1125 | after the copy every header verifies |
| `ElfLoader.FileUntouched` | loader/loader.c:970-998 | no part of the copy changes the ELF file behind the window |
| `ElfLoader.CopySections32` | loader/loader.c:955-1000 | headers are read from memory during the copy, and the result is still the load of the original file, overlapping segments included; NULL and no change for a wrong magic |
| `ElfLoader.LoadBytes` | loader/loader.c:976-997 | with disjoint segments memory byte dest + k is file byte offset + k below filesz, and zero from there to memsz |
| `ElfAccept.LoadedByWords` | loader/loader.c:976-997 | the same by the words of the program header |
| `ElfLoader.FillExact` | loader/loader.c:756-769 | the zero fill is the rest of the segment if and only if that is below 2^31 |
| `ElfLoader.InitrdExact` | loader/loader.c:2086-2095 | there is room for the initrd header if and only if the kernel ends at 0x80000 or later and inside a page with more than eight bytes to go; it is the last eight bytes of that page |
| `ElfLoader.VerifySections32` | loader/loader.c:1070-1125 | panics if and only if the magic is wrong, or for some loaded header memory byte p_paddr + k differs from file byte p_offset + k for a k below p_filesz, or the first byte behind is not zero |
| `ElfLoader.LoadKernel` | loader/loader.c:2072-2095 | an accepted kernel never overwrites loader text, ELF buffer or anything from the initrd header on, and with segments apart and no long file part has every segment in memory, byte by byte, and does not panic; a rejected one changes nothing |
| `Calendar.YearLoopDays` | driver_ps2fs/ps2fs/misc.c:84-88 | the seconds tested for leap years are always whole days, so the test only sees the year modulo four |
| `Calendar.YearLength` | driver_ps2fs/ps2fs/misc.c:84-88 | which is the Gregorian rule before 2100 |
| `Calendar.NextDaySeconds` | driver_ps2fs/ps2fs/misc.c:78-93 | the next calendar day is 86400 seconds later |
| `Calendar.DateAtSeconds` | driver_ps2fs/ps2fs/misc.c:78-93 | the date reached by counting days from 1970 has that many seconds |
| `Calendar.DateReached` | driver_ps2fs/ps2fs/misc.c:78-93 | every valid date is reached by counting |
| `Calendar.FromTimeIsGregorian` | driver_ps2fs/ps2fs/misc.c:78-93 | from_ps2time is the Gregorian second count for every valid date up to the 32-bit limit |
| `Calendar.FromPs2Time` | driver_ps2fs/ps2fs/misc.c:78-93 | the loop computes it |
| `Calendar.FindYear` | driver_ps2fs/ps2fs/misc.c:104-113 | the do loop finds year and seconds into it |
| `Calendar.FindMonth` | driver_ps2fs/ps2fs/misc.c:115-119 | the for loop finds the month of a common year |
| `Calendar.ToPs2Time` | driver_ps2fs/ps2fs/misc.c:99-125 | computes `ToTime`, and for negative times the fields that C division and 8-bit storage give |
| `Calendar.StoredExact` | driver_ps2fs/ps2fs/misc.c:121-124 | from 1970 on the 8-bit fields hold their values |
| `Calendar.BeforeEpoch` | driver_ps2fs/ps2fs/misc.c:76-125 | a negative time converts back to itself if and only if it is -86400 |
| `Calendar.RoundTrip` | driver_ps2fs/ps2fs/misc.c:76-125 | back and forth gives t, or t + 86400 from 29 February to the end of a leap year |
| `Calendar.ToTimeExact` | driver_ps2fs/ps2fs/misc.c:115-121 | the date is right if and only if not in that part of a leap year |
| `Calendar.ToTimeValid` | driver_ps2fs/ps2fs/misc.c:99-125 | elsewhere the stamp is a valid date and time |
| `Calendar.LeapDayIsMissed` | driver_ps2fs/ps2fs/misc.c:115-121 | 29 February 1972 is stamped 1 March |
| `BlockBitmap.BitUpdate` | driver_ps2fs/ps2fs/bitmap.c:158-158 | setting or clearing changes one bit and no other |
| `BlockBitmap.FreeUndoesGet` | driver_ps2fs/ps2fs/bitmap.c:222-225 | freeing an allocated block restores the map |
| `BlockBitmap.FirstClear` | driver_ps2fs/ps2fs/bitmap.c:136-177 | the lowest clear bit from a position on |
| `BlockBitmap.GetNewBlock` | driver_ps2fs/ps2fs/bitmap.c:136-181 | returns the lowest clear bit and sets only that one if and only if the bitmap blocks up to it can be read and the write succeeds; no space if and only if there is none; otherwise an I/O error |
| `BlockBitmap.PaddingScanned` | driver_ps2fs/ps2fs/bitmap.c:144-144 | the search hands out a padding bit if and only if every block is used and some padding bit is clear |
| `BlockBitmap.GetDesiredBlock` | driver_ps2fs/ps2fs/bitmap.c:103-133 | gets one particular block if and only if it is free and can be read and written; each error if and only if |
| `BlockBitmap.FreeBlock` | driver_ps2fs/ps2fs/bitmap.c:189-243 | clears the bit, or leaves a free one alone; succeeds if and only if the block can be read and, if need be, written |
| `BlockBitmap.BitCountOnes` | driver_ps2fs/ps2fs/bitmap.c:26-35 | all 256 entries of the table are the number of ones |
| `BlockBitmap.CountBytes` | driver_ps2fs/ps2fs/bitmap.c:59-64 | the table-driven loop is the bit-by-bit count |
| `UsedBlocks.CountBlocks` | driver_ps2fs/ps2fs/bitmap.c:52-66 | the block loop counts all blocks, or gives up if one cannot be read |
| `UsedBlocks.CountUsedBlocks` | driver_ps2fs/ps2fs/bitmap.c:24-69 | over all subpartitions, less the root inode, in hardware blocks, in 32 bits; -EIO if and only if some block cannot be read |
| `BlockBitmap.UsedUpdate` | driver_ps2fs/ps2fs/bitmap.c:24-69 | the count of a map moves by one exactly when a bit changes |
| `UsedBlocks.FlatUsed` | driver_ps2fs/ps2fs/bitmap.c:52-66 | counting block by block is counting the one map that blocks are got from |
| `UsedBlocks.FlatUpdate` | driver_ps2fs/ps2fs/bitmap.c:144-158 | changing a bit in one bitmap block changes the bit of that number in the map |
| `UsedBlocks.CountedExact` | driver_ps2fs/ps2fs/bitmap.c:24-69 | the result is the number of set bits in all maps, less the root inode, in hardware blocks |
| `UsedBlocks.AllMove` | driver_ps2fs/ps2fs/bitmap.c:44-67 | the count over all subpartitions moves by one exactly when the bit changes |
| `UsedBlocks.CountMoves` | driver_ps2fs/ps2fs/bitmap.c:68-68 | and the result of count_used_blocks by one file system block, in 32 bits, and as plain numbers while they fit |
| `ConfigText.AtoiShow` | loader/configuration.cpp:48-54 | atoi undoes %d |
| `ConfigFormat.DigitsExact` | loader/configuration.cpp:48-54 | %d writes digits whose decimal value is the number, without leading zeros |
| `ConfigFormat.AtoiExact` | loader/configuration.cpp:75-79 | atoi on any text: blanks, a sign, and the decimal value of the digits that follow |
| `ConfigFormat.FgetsExact` | loader/configuration.cpp:114-116 | fgets takes a line with its newline, but no more than 2047 characters |
| `ConfigFormat.LineRead` | loader/configuration.cpp:114-126 | any line up to 2047 characters gives what is between its first '=' and its newline to the items named before it |
| `ConfigFormat.LineSkipped` | loader/configuration.cpp:114-126 | a line without '=' is skipped |
| `ConfigFormat.LastLine` | loader/configuration.cpp:121-126 | a last line without a newline loses the last character of its value |
| `ConfigFormat.ReadExact` | loader/configuration.cpp:75-98 | a text item takes as much as its buffer holds, other items the number |
| `ConfigFormat.ApplyEvery` | loader/configuration.cpp:127-162 | every item of the name takes the value and no other changes |
| `ConfigText.SaveConfiguration` | loader/configuration.cpp:260-296 | the loop writes `Save` |
| `ConfigText.ApplyToItems` | loader/configuration.cpp:127-162 | the item loop gives a value to every item of that name, in order |
| `ConfigText.LoadConfiguration` | loader/configuration.cpp:105-170 | the line loop computes `Load` |
| `ConfigText.LineParsed` | loader/configuration.cpp:114-126 | a written line is read back as its name and its value |
| `ConfigText.LineRestores` | loader/configuration.cpp:127-162 | reading it restores that item, and resets the video parameter if it is the mode |
| `ConfigText.LoadReplays` | loader/configuration.cpp:105-170 | loading a saved file replays the items in order |
| `ConfigText.LoadAfterSave` | loader/configuration.cpp:105-296 | every item comes back, whatever was there before, except a video parameter with a mode behind it |
| `ConfigText.LastVideo` | loader/configuration.cpp:75-79 | the last video mode item behind a position, or none if there is none: the one whose default the parameter ends up with |
| `ConfigText.RoundTripExact` | loader/configuration.cpp:75-79 | the round trip is exact if and only if no parameter is overridden by a later mode |
| `ConfigText.VideoModeFirst` | loader/loadermenu.cpp:1029-1029 | with the mode registered before the parameter the round trip is exact |
| `Semaphores.CreateFresh` | kernel/thread.c:29-50 | a created handle was not live, and is the only change |
| `Semaphores.DeleteFrees` | kernel/thread.c:52-74 | a live handle is freed; a double delete or a bad id is refused |
| `Semaphores.RunInv` | kernel/thread.c:29-74 | over every run the free list has no repetitions and no stranger |
| `Semaphores.LivePlusFree` | kernel/thread.c:29-74 | live plus listed is the table size |
| `Semaphores.NothingLive` | kernel/thread.c:128-143 | at first no handle is live |
| `Semaphores.EveryRun` | kernel/thread.c:128-143 | from the initial list, for any table size and any run, the list has no repetition and live plus listed is the table size |
| `Semaphores.NotReissued` | kernel/thread.c:36-49 | a live handle stays live and is not issued again until it is deleted, over every run |
| `Semaphores.Unlink` | kernel/thread.c:36-47 | taking the head keeps the pointers a list of exactly the free entries |
| `Semaphores.Link` | kernel/thread.c:69-71 | so does putting an entry in front |
| `Semaphores.AllFree` | kernel/thread.c:132-142 | the initial pointers form the list of all entries |
| `Semaphores.SemaTable.constructor` | kernel/thread.c:128-143 | the loop links the table |
| `Semaphores.SemaTable.CreateSema` | kernel/thread.c:29-50 | refines `Create` on the linked table; other entries unchanged |
| `Semaphores.SemaTable.DeleteSema` | kernel/thread.c:52-74 | refines `Delete` on the linked table; other entries unchanged |
| `Semaphores.SemaTable.WaitSema` | kernel/thread.c:76-89 | counts down, reports would-block or an error; the list is unchanged |
| `Semaphores.SemaTable.SignalSema` | kernel/thread.c:111-120 | counts up or reports an error; the list is unchanged |

## Left out

- sif_dma_stat and the SIF0 channel: the status query is unfinished in the source.
- DMA transfers with the DMATAG attribute: `Append` and `DmaTransfer` model them, the stream theorems do not cover them, because they send stale staging data.
- DMA tag words: fields of records rather than packed bits; bits 26 to 27 of a tag and interrupt delivery are not modelled.
- SifDmaUnsafe.SafeIsExact: about the order of the data only; a refused request that meets a zero slot breaks the free count instead, see `RefusedPassesBlank` and `UsableIsExact`.
- SifDmaProofs.DeliveredInOrder: assumes that a caller leaves source data alone until it has been sent, and that a transfer fits the 16-bit quadword count.
- RPC server side, the waiting mode, and calls without an end function in no-wait mode: the client path that Linux uses is modelled.
- Contents of RPC packets and buffers, cache write-back and alignment beyond the result code.
- SifRpcProofs.EveryRun: the status query is exact only before the 32-bit id counter wraps; an IOP that answers a request twice or unasked is not modelled.
- CD/DVD result values and data copies: for which call the shared buffers were last written is modelled, not what is in them; a NULL mutex cannot occur.
- CdvdProofs.StepInv: calls and callbacks of CD/DVD advance as a state machine on values; in-place update is modelled for the mutexes, the stage and the bind variables only. initMode, which stage 3 and a reset both set to the same constant, is not one of the buffers.
- CdvdRpc.RequestSimulates: one call is simulated as one step; between its claim and its send other sections may run.
- SmapTx.StepInv: the transmit thread is a state machine on values; the queue of the kernel is a sequence, its spin lock the atomicity of a section.
- Network receive path, open and close while frames are queued, statistics.
- Mailbox.StepInv: the mailbox is a state machine on values, one event per byte access.
- 64-bit ELF variants: the same reasoning with truncating casts.
- ElfLoader.CheckAndLoad: a destination must hold every accepted segment; the source would write past its end.
- ElfLoader.CheckTable: as for CheckAndLoad.
- ElfLoader.CheckSections32: as for CheckAndLoad.
- ElfLoader.CopySections32: no wrapped sum, because the source would write outside the window.
- ElfLoader.LoadKernel: the same for an accepted kernel.
- Loading the initrd and modules, and the boot page.
- CrcSections.FixSegments: requires that the table overlaps no section header, name or checked section.
- Subpartitions other than 0 in allocation, and the directory code: their on-disk macros are not part of this model.
- BlockBitmap.GetNewBlock: the map is one array of bytes; buffers, locks and dirty marks are outcomes of reading and writing.
- BlockBitmap.GetDesiredBlock: a block number past the bitmap addresses whatever follows on the device, which is then part of the array.
- BlockBitmap.FreeBlock: as for GetDesiredBlock.
- Calendar.BeforeEpoch: for times below -2147483648 + 365 * 86400 the first subtraction of the source overflows a signed 32-bit value; the model subtracts in unbounded integers.
- ConfigText.LoadAfterSave: text is a sequence of characters without NUL, numbers are unbounded, and a saved line fits the line buffer.
- Semaphores.SemaTable.SignalSema: a negative id, which the source does not check, is excluded.
- Memory card, pad, sound, menus, graphics, register set-up and assembly.
