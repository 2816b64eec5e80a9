# CCAT driver: verified model

CCAT is a Linux driver set for an FPGA that carries Ethernet/EtherCAT frames, updates its own configuration flash
and exposes an SRAM. This project models the parts where driver, device and flash share state and proves what
holds over whole runs of them.

**Network rings.** Frames travel through two rings of 0x800-byte slots. A pointer `next`, one flag per slot and a
descriptor FIFO in the device decide who owns a slot. `RxSystem` and `TxSystem` are transition systems whose events
are single accesses to shared state, so that device activity falls between any two accesses of the driver. Their
theorems are about every state of every run. `RxDriver` and `TxDriver` are the driver's code over the same memory:
each class keeps, as a ghost field, the history of states it went through, and its validity says that this history
is a run of the transition system ending in the present state. Hence every theorem about runs is a theorem about
every moment of every execution of the code. Device activity is a method that does any number of device steps; the
driver methods call it between their accesses. `Nic` puts the rings together with the queue state, link handling
and the poll callback.

**Flash update.** `SerialFlash` is a serial NOR flash as a state machine (erase sets all bits, program only clears
them and wraps inside a page, both need and consume the write-enable latch, a busy chip answers only status reads).
`FlashProtocol` and `UpdatePort` are the register-mapped shift engine and the driver's command helpers and block
loops. `UpdateSession` says what a session of reads and writes on one cursor leaves in the buffer and which erase
and program cycles closing it issues; `UpdateFile` is the device file as code, with the update script on top.

**Concurrent use.** `ExclusiveOpen` interleaves any number of threads at the atomic operations on `in_use` and
between any two file operations, erase cycles and program cycles. `UpdateDevice` runs these threads on the real
port and flash: its history is a run of `ExclusiveOpen` in which the cycles are those the port saw and the image is
the one the flash holds.

**Character devices.** `DeviceTable` is the slot table with its reference-counted class; `Sram` is the SRAM file.

## Main results

- Receive ring: `RxSystem.RxOwnership` (one owner per slot, in every interleaving), `RxSystem.RxDelivery` (frames in
  order, once, unchanged, counted), `RxDriver.RxFifo.PollRx` (how many frames a poll handles, and which).
- Transmit ring: `TxSystem.TxOwnership`, `TxSystem.TxNeverOverwrites`, `TxSystem.TxConservation` with
  `TxSystem.TxByteExact`, and `Nic.EthDevice.Serve` (no frame offered to an awake queue is ever refused).
- Flash: `UpdateSession.SessionImage` and `UpdateFile.RunSession` (what any session leaves, by which cycles),
  `UpdateFile.BackupAndRestore`.
- Threads and flash together: `ExclusiveOpen.FlashedInSessionOrder`, `ExclusiveOpen.FlashHoldsSessions`,
  `ExclusiveOpen.LastImageIsLast` and, on the real port, `UpdateDevice.Cdev.RunThread`.
- Tables and files: `DeviceTable.CcatClass.Operate`, `Sram.SramFile.RunAll`.

They open the table below; the other rows are what they rest on.

## Assumptions

- The receive device takes descriptors in the order posted, writes payload, then length, then the received flag,
  and a payload has 1 to 2024 bytes. The transmit device takes descriptors in order, reads length and payload, sends
  the payload bytes that lie inside the region the descriptor names, then marks the slot sent. The methods named
  `Device` do any number of such steps.
- A write to `reg + 8` empties a device FIFO and ends the transfer in progress.
- Driver calls (transmit, poll callback, probe, remove) do not overlap; memory is sequentially consistent and byte
  order conversions are the identity.
- The shift engine sends out-byte `k` from register 0x10 + 8k and stores in-byte `k` at 0x18 + 8k, least significant
  bit first. Read this way the driver's command bytes are exactly the usual serial-flash opcodes, and bit 7 of the
  status it polls is the write-in-progress bit (`FlashProtocol.Opcodes`, `FlashProtocol.BusyBit`).
- Erase, program and shift cycles end after finitely many polls; their length is arbitrary.
- A failing user copy into the update buffer may leave any bytes in the addressed part of the buffer.
- Allocation of the link-up frame and of the DMA buffers succeeds; a failing receive-buffer allocation, a failing
  open allocation, a failing region or class creation and a failing device registration are modelled.

## Findings

- `TxSystem.TxByteExact`, `TxSystem.FullFrameIsLost`: a frame of exactly 2024 bytes passes the length test of the
  transmit path, but its word count of 256 does not fit the eight bits left for it and becomes 0. It is the only
  accepted length for which the wire does not show the frame.
- `Nic.EthDevice.PollTimer`, `Nic.AwakeWithoutCarrier`: unless the link comes up, a poll ends with the queue awake if
  and only if there was room before it or a frame left the ring during it, also when it has just stopped the queue
  because the link went down.
- `TxSystem.FirstFrameLeavesRoom`: link-up starts the queue right after sending a frame; this keeps the flow-control
  promise if and only if the ring has at least two slots.
- `ExclusiveOpen.OpenWinsIff`, `ExclusiveOpen.BusyWithoutHolder`: an open can fail with EBUSY while nobody holds the
  device, exactly while another failed attempt has not undone its decrement.
- `DeviceTable.CcatClass.ProbeDevice`, `DeviceTable.FirstProbeFails`: when registration of a new device fails, the
  clean-up path uses the entry's class pointer, which is unassigned unless an earlier probe had succeeded on the same
  entry. When the first instance cannot create region or class, the probe goes on and uses the missing class.
- `UpdateSession.EmptyWriteAfterRead`: a write of no bytes after a read makes closing the file erase the flash; for
  sessions in general `UpdateFile.RunSession` says that this happens if and only if an accepted write ended above
  zero.
- `UpdateSession.FaultThenRead`, `UpdateSession.FaultsLeaveNoTrace`: bytes of a write that failed with EFAULT reach
  the flash if and only if a read then carries the cursor over them before the last accepted write.
- `UpdateFile.UpdateFirmware`: an image that does not fit makes the update script stop with a part of it flashed and
  the backup not restored.
- `UpdateFile.BackupAndRestore`: bytes of the flash beyond 0xE0000 survive a backup and restore only if they were
  erased before.

## Model

| member | source | states |
|---|---|---|
| RxSystem.RxOwnership | netdev.c:674-686 | in every interleaving the received-unread slots are one contiguous run in ring order, at most the slot at `next` is in the driver's hands, and the rest are the device FIFO, word for word in ring order |
| RxSystem.RxDelivery | netdev.c:598-617 | since the last reset the handled frames are exactly a prefix of what the device wrote, in order, once each and unchanged; the unread ones sit unchanged from `next` on; byte and drop counters are sums over the history |
| RxSystem.RxPostedOnce | netdev.c:380-388 | no slot is posted twice and no posted slot is flagged |
| RxSystem.RxResetProgress | netdev.c:348-359 | during a reset exactly the slots passed by `next` are posted, or already refilled by the device |
| RxDriver.RxFifo.PollRx | netdev.c:674-686 | a poll handles the oldest unread frames in order, each delivered or dropped as its allocation goes; it handles at most 31 frames, at least min(31, waiting) and at most min(31, waiting plus arrived), hence exactly min(31, waiting) with an idle device |
| TxSystem.TxOwnership | netdev.c:390-419 | at every moment outside resets, also in the middle of a transmit, the slots in flight are, in submission order, the slots just behind the tail, each holding its frame, and exactly the slots neither in flight nor in the driver's hands are marked sent |
| TxSystem.TxNeverOverwrites | netdev.c:402-411 | the driver writes flag, length and payload only into a slot no pending descriptor names |
| TxSystem.TxConservation | netdev.c:538-579 | since the last reset the wire shows the accepted frames in order, once each; accepted are exactly the offers answered as queued; counters equal sum and count over all verdicts |
| TxSystem.TxByteExact | netdev.c:551-557 | the wire is a byte-exact prefix of the accepted frames if and only if none of those sent has 2024 bytes |
| TxSystem.RefusalMetFullRing | netdev.c:559-563 | behind every refusal in the history of any run lies a moment at which all slots were in flight |
| Nic.EthDevice.Serve | netdev.c:559-563 | over every sequence of calls and any device activity each call accounts for one step of the books: an offered frame is dropped and counted if nonlinear or oversized, otherwise queued, never refused; polls add only the forwarding frame on link-up; the drop counter grows by the number of unsuitable frames offered; nothing is offered between a stop and the next poll |
| Nic.EthDevice.PollTimer | netdev.c:702-712 | a poll keeps the flow-control promise, transmits nothing but the forwarding frame on link-up and handles the oldest received frames, at least min(31, waiting); unless the link comes up, the queue ends awake if and only if there was room before the poll or a frame left the ring during it, also when the same poll stopped it |
| UpdateSession.SessionImage | update.c:225-253 | for every session of reads and writes the flash image shows each accepted write where it passed, below the end of the last one, and erased bytes above it |
| UpdateSession.SessionEffect | update.c:241-253 | the erase and program cycles of a session turn any flash contents into the session's image, or leave them alone if nothing was written |
| UpdateFile.RunSession | update.c:241-311 | open, any reads and writes, and release put the flash through exactly one erase and the tiling programs and leave the image of the replayed session; it is erased if and only if an accepted write ended above zero |
| UpdateFile.BackupAndRestore | scripts/update_ccat.sh:87-98 | backup, any sessions, and restore leave bytes 0 to 0xE0000 as before, and the whole chip if and only if the bytes behind were erased |
| UpdatePort.Port.ReadFlash | update.c:163-177 | the 247-byte block loop returns the same bytes as one direct read and advances the offset by their number |
| ExclusiveOpen.MutualExclusion | module.c:140-148 | with any number of threads `in_use` is one minus holders minus threads about to undo, and no two threads hold the device |
| ExclusiveOpen.FlashedInSessionOrder | update.c:241-253 | for every interleaving the cycles that reached the flash are those of the released sessions one session after the other, in the order they were opened, followed by a first part of those of the session being released |
| ExclusiveOpen.FlashHoldsSessions | update.c:241-253 | for every interleaving, with no release under way the flash holds what the released sessions leave when they run one after the other |
| ExclusiveOpen.LastImageIsLast | update.c:246-252 | that is the image of the last released session that wrote something, or the original contents if none did |
| UpdateDevice.Cdev.RunThread | module.c:134-191 | a thread that opens, uses and releases the device amid any steps of the others is released under its session number, and the real flash then holds exactly what it wrote; it is turned away only after winning without memory, or with another thread holding the device or undoing an attempt during the call, never when it is alone with memory, and then it has been in no session |
| DeviceTable.CcatClass.Operate | module.c:158-204 | in every run of successful probes and removes each probe takes the first free entry and each remove frees its own, all counts are kept, and registered devices have their index as minor number, so that no two share a device number |
| Sram.SramFile.RunAll | sram.c:21-64 | every run of seeks, reads and writes, with user copies that succeed or fail, gives one answer per operation, each that of a plain byte array with a cursor in the state the operation before left |
| Ring.IncIsSucc | netdev.c:302-306 | advancing the slot pointer visits slot numbers cyclically, for every region size, also one smaller than a slot or not a multiple of it |
| Ring.WalkRing | netdev.c:348-359 | the reset loop terminates, visits each of max(1, size/0x800) slots exactly once in order and ends with `next` at the start |
| Descriptors.RxWordDecodes | netdev.c:380-388 | a receive descriptor is bit 31 over the offset of its slot, fits 32 bits, and the device recovers the slot |
| Descriptors.TxWordDecodes | netdev.c:402-419 | a transmit descriptor starts at the length field of its slot and counts the whole 8-byte words of header and payload; the device always recovers the slot, and the count unless the length is 2024, where it reads 0 |
| Descriptors.TxDescriptorExact | netdev.c:413-418 | the region a transmit descriptor names covers the 16 header bytes and the payload and stays in the slot if and only if the accepted length is below 2024 |
| Descriptors.TxWordInjective | netdev.c:414-418 | two descriptors for lengths below 2024 agree only if slot and word count agree |
| DmaWindow.WindowInsideAllocation | netdev.c:254-269 | for every bus address the aligned 128 KiB window and all its slots lie inside the 2A-1 allocated bytes, at the same offset for CPU and device |
| DmaWindow.ProgrammedWordsRecover | netdev.c:264-273 | the high word counts 4 GiB and the low word without bit 0 is the rest of the window address; bit 0 is set if and only if it needs more than 32 bits |
| RxSystem.ReadyIsUnread | netdev.c:367-378 | between calls the slot at `next` tests ready if and only if a frame of this epoch is unread, and then it holds the oldest one with its exact length |
| RxSystem.StepKeepsInv | netdev.c:380-388 | every single access of driver or device, in any order the code allows, keeps ownership, contents and statistics consistent |
| RxSystem.RunInv | netdev.c:348-388 | the ownership invariant holds in every state of every interleaving from an arbitrary initial memory |
| RxSystem.DeviceStepIsDeviceOnly | netdev.c:367-378 | a device step never changes a slot flagged as received nor anything the driver keeps |
| RxDriver.RxFifo.constructor | netdev.c:227-231 | a ring over memory with any contents starts a run of the transition system |
| RxDriver.RxFifo.RxReady | netdev.c:367-378 | a positive answer is the payload length at `next` although the device runs between the two reads; zero means every frame written before the call has been handled |
| RxDriver.RxFifo.CopyToSkb | netdev.c:396-400 | the bytewise copy, with the device running in between, is the payload of the slot |
| RxDriver.RxFifo.Receive | netdev.c:598-617 | exactly the oldest unread frame is delivered unchanged and its length counted, or it is counted as dropped if there is no buffer for it |
| RxDriver.RxFifo.AddSlot | netdev.c:380-388 | flag cleared and descriptor posted for the slot at `next`, as steps of the run with the device in between |
| RxDriver.RxFifo.HandleOne | netdev.c:680-685 | one loop step handles exactly the oldest unread frame, re-posts its slot and tests the next one |
| RxDriver.RxFifo.PostAll | netdev.c:353-357 | the reset loop ends at the start with every slot posted once, even if the device fills slots meanwhile |
| RxDriver.RxFifo.Reset | netdev.c:348-359 | a reset loses no statistics and leaves each slot with the device or holding a frame of the new epoch |
| TxSystem.ReadyIffRoom | netdev.c:361-365 | the slot at `next` tests ready if and only if fewer than all slots are in flight |
| TxSystem.StepKeepsInv | netdev.c:402-419 | every single access of driver or device keeps ownership, contents, wire order and accounting consistent |
| TxSystem.RunInv | netdev.c:538-579 | the transmit invariant holds in every state of every interleaving |
| TxSystem.FirstFrameLeavesRoom | netdev.c:635-643 | after a reset and one frame in flight there is room if and only if the ring has two slots or more |
| TxSystem.SendOne | netdev.c:402-419 | on a ring of any size a frame of any accepted length can be submitted and sent by a run |
| TxSystem.FullFrameIsLost | netdev.c:416-417 | on a ring of any size there is a run that accepts a 2024-byte frame and does not show it on the wire |
| TxDriver.TxFifo.constructor | netdev.c:227-231 | a ring over memory with any contents starts a run of the transition system |
| TxDriver.TxFifo.RoomUnlessFull | netdev.c:361-365 | between calls there is room if and only if fewer than all slots are in flight |
| TxDriver.TxFifo.TxReady | netdev.c:361-365 | the answer is whether the slot at `next` is free at return |
| TxDriver.TxFifo.FillSlot | netdev.c:402-411 | flag, length and the whole payload are written to a free slot while the device runs in between |
| TxDriver.TxFifo.QueueSkb | netdev.c:402-419 | a frame offered to a free slot is accepted with its exact bytes and adds at most one descriptor, the 32-bit word of slot and length |
| TxDriver.TxFifo.Transmit | netdev.c:565-573 | a frame taken into the ring is queued, counted and followed by the next slot |
| TxDriver.TxFifo.Offer | netdev.c:559-578 | a frame is queued unless the ring is full at the call, in which case it is refused; the last ready test tells whether there is room |
| TxDriver.TxFifo.CountDrop | netdev.c:544-557 | a nonlinear or oversized frame is counted as dropped |
| TxDriver.TxFifo.MarkAll | netdev.c:353-357 | the reset loop ends at the start with every slot free |
| TxDriver.TxFifo.Reset | netdev.c:348-359 | after a reset nothing is in flight and every slot is free |
| Nic.EthDevice.constructor | netdev.c:466-490 | after initialisation both rings are at rest and the flow-control promise holds |
| Nic.EthDevice.StartXmit | netdev.c:538-579 | a nonlinear or oversized frame is dropped and counted and nothing else; any other is accepted with its bytes, or refused, which happens only if the queue was asleep and the ring full; afterwards the queue is awake if and only if it was before and there is room |
| Nic.EthDevice.LinkDown | netdev.c:619-624 | queue stopped, carrier off |
| Nic.EthDevice.ResetRings | netdev.c:635-636 | both rings restart, all statistics stay, and there is room |
| Nic.EthDevice.LinkUp | netdev.c:626-644 | the forwarding frame is never refused and is the first frame of the new epoch; the queue starts with room |
| Nic.EthDevice.PollLink | netdev.c:659-669 | the carrier follows the link; queue, receive epoch and frames in flight change only on a link change |
| Nic.EthDevice.PollTx | netdev.c:691-696 | afterwards the queue is awake if and only if there is room, and awake for sure if there was room before |
| Nic.EthDevice.Make | netdev.c:786-791 | one call, with frames offered only to an awake queue, has exactly the effect of its kind on verdicts, accepted frames, drop counter, carrier and queue; a stop leaves the queue asleep |
| Nic.VerdictsOf | netdev.c:559-563 | none of the verdicts a sequence of calls determines is a refusal |
| Nic.AwakeWithoutCarrier | netdev.c:707-709 | from load on, a poll with the link up and one with it down end with the queue awake and the carrier off |
| SerialFlash.SwapBitsReverses | update.c:35-37 | the multiply-and-mask macro reverses the bits of every byte, in 64-bit and in wrapping 32-bit arithmetic, and reversal undoes itself |
| SerialFlash.ByteRoundTrip | update.c:98-100 | a number below 256 put into a byte register is read back as that number |
| SerialFlash.ProgramErased | update.c:205-219 | a program inside one page that hits erased bytes only stores its data as given and changes nothing else |
| FlashProtocol.Opcodes | update.c:27-33 | the command bytes are the serial-flash opcodes, bit-reversed |
| FlashProtocol.AddressRoundTrip | update.c:98-105 | the flash decodes the 24-bit address the driver encoded |
| FlashProtocol.AddressBytesOrder | update.c:98-100 | the three address bytes are the bits 16-23, 8-15 and 0-7 of the address |
| FlashProtocol.FramedRegisters | update.c:95-109 | the register contents shift out as opcode, address most significant byte first, then the data, each in flash bit order |
| FlashProtocol.BusyBit | update.c:185-192 | bit 7 of the status the driver reads is set if and only if the flash is busy |
| FlashProtocol.StatusTransaction | update.c:117-121 | a status read reports the busy bit and changes nothing but the remaining busy time |
| FlashProtocol.ReadReply | update.c:137-149 | the in-byte registers from byte 4 on hold the flash contents from the given address |
| FlashProtocol.ProgramRules | update.c:205-219 | a block write obeys the command rules and is a program of exactly that address and those bytes |
| FlashProtocol.ProgramImage | update.c:205-219 | after a block write the host sees the block in its place and nothing else changed |
| FlashProtocol.TilesCounted | update.c:225-239 | writing `size` bytes takes exactly ceil(size/128) programs |
| FlashProtocol.TilesExact | update.c:225-239 | the i-th program covers exactly bytes 128i to 128(i+1), or to the end |
| FlashProtocol.TilesLay | update.c:225-239 | the first k programs of a write, on a blank chip, leave exactly its first k blocks and erased bytes |
| UpdatePort.Port.constructor | module.c:166-168 | a port before its first command, in front of a flash with any contents |
| UpdatePort.Port.SetCommand | update.c:59-65 | the two clock registers hold high and low byte of the clock count |
| UpdatePort.Port.WaitUntilBusyReset | update.c:43-49 | the wait terminates with the engine idle |
| UpdatePort.Port.Command | update.c:76-83 | one transaction of exactly the given number of clocks reaches the flash |
| UpdatePort.Port.LoadAddress | update.c:98-105 | the registers hold exactly the framed command, and no data register is overwritten |
| UpdatePort.Port.CommandAddr | update.c:95-109 | one transaction of command, address and data reaches the flash, within the command rules |
| UpdatePort.Port.GetStatus | update.c:117-121 | the value read is the flash status as of the call |
| UpdatePort.Port.WaitStatusCleared | update.c:185-192 | the polling terminates with the flash idle and its contents unchanged |
| UpdatePort.Port.ReadFlashBlock | update.c:137-149 | a block read returns the flash contents and changes nothing |
| UpdatePort.Port.WriteFlashBlock | update.c:205-219 | on erased bytes, exactly one program cycle stores the block at its address and leaves the chip idle |
| UpdatePort.Port.BulkErase | update.c:247-249 | exactly one erase cycle leaves the chip blank and idle |
| UpdatePort.Port.WriteFlash | update.c:225-239 | a blank flash then holds the buffer followed by erased bytes, by the tiling programs in order, each once |
| UpdateSession.SessionByte | update.c:295-311 | each buffer byte is that of the last write or failed copy covering it, or zero |
| UpdateSession.SessionSize | update.c:308-309 | the size is where the last accepted write ended, which is not above the cursor |
| UpdateSession.ReadMoves | update.c:268-281 | a read moves the cursor by `len` or to the device size, and nothing else |
| UpdateSession.AcceptedUpwards | update.c:300-309 | accepted writes are disjoint: each ends before the next begins |
| UpdateSession.WrittenOrSkipped | update.c:268-311 | every position below the cursor was passed by an accepted write or skipped by a read, and not both |
| UpdateSession.FaultFreeImage | update.c:295-311 | without failing copies every flashed byte is that of the one write that passed there, or zero where a read skipped |
| UpdateSession.ReadFreeContents | update.c:295-311 | without reads the flashed bytes are the concatenation of the accepted writes, whatever copies failed |
| UpdateSession.FaultsLeaveNoTrace | update.c:304-306 | failed writes leave the flash as if they had never been made if and only if no read carries the cursor over nonzero bytes their copies left |
| UpdateSession.FaultThenRead | update.c:304-309 | a failed write, a read over it and an empty write flash exactly the bytes the failed copy left |
| UpdateSession.EmptyWriteAfterRead | update.c:300-309 | a read followed by an empty write makes release flash as many zero bytes as were read |
| UpdateSession.SessionPageFits | update.c:205-239 | each program of a session stays inside one aligned 128-byte window and finds it erased, whatever the flash held before the session |
| UpdateFile.Handle.constructor | module.c:145-152 | a session starts with a zeroed buffer, cursor and size zero |
| UpdateFile.Handle.ReadFile | update.c:268-281 | a read returns the flash contents at the cursor, `len` bytes or up to the device size, and moves only the cursor, by their number |
| UpdateFile.Handle.WriteFile | update.c:295-311 | a write that fits is stored at the cursor, which becomes the size; one that does not fit changes nothing; one whose user copy fails returns EFAULT with cursor and size unchanged; no byte outside the written range changes |
| UpdateFile.Handle.Release | update.c:241-253 | without a size the flash gets no command; otherwise one erase, then the tiling programs, and the flash holds the buffer |
| UpdateFile.Backup | scripts/update_ccat.sh:58-58 | reads of any sizes up to end of file return the first 0xE0000 bytes and change nothing |
| UpdateFile.Store | scripts/update_ccat.sh:65-69 | writing an image of any size in chunks of any sizes leaves exactly the chunks before the first that does not fit, and erased bytes; it fails if and only if the image has more than 0xE0000 bytes, and an empty image leaves the flash alone |
| UpdateFile.UpdateFirmware | scripts/update_ccat.sh:57-81 | the update is written and verified if and only if the image fits; otherwise the script stops with a part of the image in the flash |
| ExclusiveOpen.StepKeepsInv | module.c:134-154 | every step of every thread keeps the count of `in_use`, the order of sessions and of their cycles, and the image |
| ExclusiveOpen.RunInv | module.c:134-191 | the invariant holds in every state of every interleaving of any number of threads |
| ExclusiveOpen.SessionsDoNotInterleave | update.c:241-281 | between two uses of the flash by one session, reads or cycles, lie only uses by that session |
| ExclusiveOpen.CyclesComeFromReleases | update.c:241-253 | while a thread is in no session, every erase or program comes from another thread that is releasing |
| ExclusiveOpen.OpenWinsIff | module.c:140-143 | an open wins if and only if nobody holds the device and nobody is undoing a failed attempt |
| ExclusiveOpen.BusyWithoutHolder | module.c:140-143 | there is a run in which an open fails although nobody holds the device |
| UpdateDevice.Cdev.constructor | module.c:166-168 | a probed device, in front of a flash with any contents, has `in_use` one and no holder |
| UpdateDevice.Cdev.Do | module.c:134-191 | one step of any thread, with its flash command on the real port, is the next step of the run |
| UpdateDevice.Cdev.Others | module.c:134-191 | whatever other threads do, a thread's own position stays, and while it holds the device nobody else touches the flash |
| UpdateDevice.Cdev.Open | module.c:134-154 | success means this thread alone holds the device; EBUSY means that during the call another thread held it or was undoing an attempt; ENOMEM that the device had been won; every failure leaves no trace of the attempt |
| UpdateDevice.Cdev.Read | update.c:268-281 | a read by the holder returns the real flash contents at its cursor, `len` bytes or up to the device size, and moves its cursor by their number |
| UpdateDevice.Cdev.Release | update.c:241-253 | exactly the cycles of this session reach the flash, whatever the other threads do meanwhile, the flash then holds its image, and the device is returned |
| UpdateDevice.Cdev.SettledNow | update.c:241-253 | at every moment without a release under way the cycles on the port and the contents of the flash are those of the released sessions in a row |
| DeviceTable.CcatClass.constructor | module.c:86-101 | an empty table has no class, no number region and no entry with an assigned class pointer |
| DeviceTable.CcatClass.ClassInit | module.c:48-70 | the first instance creates region and class, later ones find them; a failure leaves neither, but the instance counted |
| DeviceTable.CcatClass.ClassExit | module.c:72-78 | the last instance destroys class and region |
| DeviceTable.CcatClass.AllocCdev | module.c:86-101 | the first free entry is taken, even if there is no class, with its index as minor number and the class's major number, recovered from the number stored; a full table refuses and nothing changes |
| DeviceTable.CcatClass.FreeCdev | module.c:80-84 | the entry is free again and one instance fewer is counted |
| DeviceTable.CcatClass.ProbeDevice | module.c:158-179 | instances count the occupied entries, class and region exist if and only if there is one, minors are indices; a failed registration is undone if and only if the entry's class pointer had been assigned before; a missing class is used if and only if the first instance could not create it |
| DeviceTable.FirstProbeFails | module.c:173-176 | in a table of any size, a failing first registration reaches the clean-up path with an unassigned class pointer |
| DeviceTable.CcatClass.RemoveDevice | module.c:195-204 | a remove frees exactly its entry and keeps the table consistent |
| DeviceTable.CcatClass.NumbersDistinct | module.c:91-96 | in a table that minor numbers can index, registered devices have their index as minor number and pairwise different device numbers |
| DeviceTable.CcatClass.ServeOne | module.c:158-204 | a probe takes the first free entry and counts one instance more; a remove of a used entry frees exactly that one and counts one less; any other request changes nothing |
| DeviceTable.OccupiedAfter | module.c:83-94 | claiming or freeing one entry changes the number of occupied entries by exactly one |
| DeviceTable.PlaceIsFirst | module.c:91-96 | the scan takes the first free entry |
| Sram.SramFile.Copy | sram.c:24-24 | a copy between device and staging buffer changes exactly the addressed bytes |
| Sram.SramFile.SeekTo | module.c:103-109 | a seek from start, cursor or end lands at that sum if it lies inside the device; any other is refused with EINVAL and changes nothing |
| Sram.SramFile.ReadAt | sram.c:21-45 | a read returns the device bytes at the cursor, `len` of them or up to the end, moves the cursor by their number and changes no device byte, whatever the staging buffer held; a failing user copy changes nothing visible |
| Sram.SramFile.WriteAt | sram.c:47-64 | a write that fits puts exactly its bytes at the cursor, moves the cursor behind them and changes nothing else; one that does not fit, or whose user copy fails, changes nothing visible |
| Sram.SramFile.WriteAndReadBack | sram.c:21-64 | write, seek back and read return what was written |
| Sram.SramFile.ReadOn | sram.c:21-45 | consecutive reads of any sizes concatenate to the contents, and enough of them reach the end |

## Left out

- The EIM transport: its transmit readiness is a device FIFO level and link-up starts the queue without testing it,
  so the flow-control promise is not made there.
- PCI and EIM probing, BAR mapping, MFD cells, resource unwinding, netdev registration and statistics read-out.
- Races between transmit and the poll callback on different processors, and between probes; kernel locking is not
  part of this model.
- Memory barriers, weak ordering, byte order, and the 64-bit wrap-around of the byte and drop counters.
- ExclusiveOpen.FlashedInSessionOrder: the steps of other threads fall between whole erase and program cycles, not
  between the register accesses of one; no step of another thread accesses the registers while a session lasts.
- UpdateFile.Handle.WriteFile: positioned writes are not modelled; sessions use the file cursor only.
- UpdateFile.Handle.ReadFile: `put_user` results are ignored by the code and the user copy is taken to succeed.
- UpdateFile.UpdateFirmware: the restore branch after a failed comparison is not part of it, because the comparison
  does not fail on this flash; restoring is UpdateFile.BackupAndRestore.
- DeviceTable.CcatClass.ProbeDevice: what happens after a missing or unassigned class pointer has been used is not
  modelled.
- gpio.c and systemtime.c: single-register reads and writes that would only add easy members.
