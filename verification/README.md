# h9can verification

Dafny models of the stateful parts of the h9 CAN library and its bootloaders, and proofs of what
they promise:

- the power-loss-safe EEPROM stores: the AVR node id (two rings of ten blocks) and the PIC sector
  store (sixteen interleaved sectors, two copies of the newest value);
- the bootloader protocol: one page exchange, the host lock, flashing a whole image over lossy
  queues, the code of the AVR bootloader and of the PIC block writer, and the flash block routines
  of both PIC families;
- the rings shared between the library and the CAN interrupt: the receive buffer and the transmit
  queue;
- the wire arithmetic: identifiers in three register layouts and multi-frame register values.

Check everything with `dafny verify dfyconfig.toml`.

## How it is built

Code that changes things step by step is a method or a class, proved against a specification: a
function on values, a list of byte writes, or a state machine. The main results are about the
specifications.

| file | contents |
|---|---|
| `bytes.dfy`, `options.dfy`, `crc16.dfy` | bytes, absent values and CRC-16 |
| `cyclic_counters.dfy` | eight-bit wrapping counters and the scan for the newest entry |
| `records.dfy` | atomic byte writes, sealed records, half-written records |
| `eeprom.dfy` | the EEPROM cells, their faults, and the history of byte updates |
| `avr_node_id*.dfy` | the AVR store: specification, whole runs, foreign contents, code |
| `pic_ee_mem*.dfy` | the PIC store: specification, copies, refresh, faulty cells, whole runs, mixed values, foreign contents, code |
| `boot_protocol.dfy`, `boot_sessions.dfy`, `boot_pages.dfy` | the bootloader as a state machine, between pages, one page |
| `boot_flashing.dfy`, `boot_reaching.dfy`, `boot_progress.dfy`, `boot_capacity.dfy` | a whole image: safety, building runs, finishing from everywhere, too many frames |
| `boot_code.dfy` | the bootloaders as they are written |
| `q84_flash.dfy`, `k80_flash.dfy` | the flash routines of the two PIC families |
| `rings.dfy`, `rx_ring.dfy`, `rx_object.dfy`, `rx_code.dfy` | the receive buffer and the message object in front of it |
| `tx_queue.dfy`, `tx_code.dfy` | the transmit queue |
| `multi_frame.dfy`, `can_ids.dfy` | register values and identifiers |

**EEPROM.** A store operation is a list of byte writes in ascending address order; a power failure
keeps any prefix of the list. Runs start from an erased EEPROM and mix complete and cut-off writes
and boots in any order and number; over any other contents a complete write heals the store, and the
cuts of the next one are treated separately. The code methods are proved to make exactly the listed byte
updates, in that order, and nothing outside the store.

**Bootloader.** A receive call returns a frame or times out, in any order. For a whole image the
two queues between node and host may lose any frame and together hold at most 33 frames; with 34 a
wrong page can be stored. The host is the one of doc/bootloader.md:119-123; other nodes may send
anything once the host is locked.

**Interrupts.** The receive side is interleaved at every access to a shared variable, the transmit
side at every statement after which the controller may finish a transmission.

## What turned out not to hold

- `pic/ee_mem.c`: a cut-off write can be read back as a mix of old and new bytes, because a longer
  change can keep the CRC. Three bytes can be mixed by one power failure
  (`PicEeMemMixes.ThreeByteRun`), two bytes by a second one after a cut-off write has left the next
  sector torn (`PicEeMemMixes.TwoByteRun`), and only then (`TwoBytesAreUnambiguous`). One byte, such
  as the node id, is never mixed. `PicEeMemRuns.CutReadsAreSafeIffUnambiguous` gives the exact
  condition for every size.
- `pic/ee_mem.c:227-245`: if fewer than two sectors take the data, nothing is invalidated, but the
  sixteenth attempt writes over the newest sector itself, so a complete write can lose both values
  (`PicEeMemFaults.WriteCanLoseBoth`); `OldOrNewIsReadIff` says exactly when one of them survives.
  With three faulty cells side by side a complete, verified write can even be read as a third value
  (`ForgedValueIsRead`); with two it cannot (`HarmlessCellsForgeNothing`).
- Both stores: over contents that were not erased, a write heals the store but leaves old bytes in the
  invalid records, and the next write can wake one of them when the power fails. The exact conditions
  are `AvrNodeIdForeign.CutsAreSafeIff` and `PicEeMemForeign.CutsAreSafeIff`.
- `pic/ee_mem.c`: user data at 0x80 reaches into the node id at 0x100 when it has more than four
  bytes (`PicEeMemCode.UserDataIsSeparate`).
- `avr/can.c:424-426`: the error branch of the interrupt clears a transmit flag that was set after
  its test, and the queue then stays until the next `CAN_put_msg` (`TxQueue.QueueCanBeStranded`);
  `EveryFrameIsAccountedFor` and `ErrorClearStrandsIff` say exactly when.
- `avr/can.c:401-404, 424-426`: in the same way a receive flag can be cleared unseen, after the object
  was armed or tested; the message object then never receives again (`RxObject.StoppedIffMissed`,
  `StoppedForEver`).
- doc/bootloader.md: five-bit request numbers tell 33 frames in flight apart, but not 34
  (`BootCapacity.ThirtyFourIsTooMany`).
- `avr/can.c:488-527`: a register value of more than 1530 bytes wraps the frame count and index
  (`MultiFrame.RoundTripIff`); the documented limit of 32 bytes is far below.
- doc/bootloader.md:106-107 speaks of four timeouts in a row; in the code ignored frames between them
  do not count, only an answer does (`BootPages.PageTranscript`).
- doc/bootloader.md:99 says that `PAGE_START` erases the page; the PIC18F-Q84 erases only when the
  block is complete, so an abandoned block leaves the flash as it was. doc/bootloader.md:115 names
  0xF600 as the bootloader start of the PIC; on the PIC18F-Q84 it is 0x1E000. The model follows the
  code.

## Model

| member | source | states |
|---|---|---|
| Crc16.UpdateWithByte | pic/ee_mem.c:85-93 | the bit loop computes eight bit steps over the register with the byte in its high half |
| Crc16.Compute | include/h9avr/node_id.h:51-67 | the byte loop computes the checksum function of the whole buffer |
| Crc16.BurstDetected | include/h9avr/node_id.h:51-67 | messages of any length that differ only inside two adjacent bytes have different checksums |
| Crc16.UpdateInjective | include/h9avr/node_id.h:51-67 | a common suffix keeps different registers different: each step is a bijection of the 16-bit states |
| Crc16.ThreeBytesCanCollide | pic/ee_mem.c:85-102 | a change of three bytes can keep the checksum: the limit of burst detection |
| Crc16.ResidueIff | pic/ee_mem.c:85-102 | the checksum over a message and two more bytes is zero if and only if they are its checksum, high byte first |
| Crc16.ErasedPicSector | pic/ee_mem.c:85-102 | marker and any counter in front of erased bytes never have an erased checksum, for every value size from 1 to 255 |
| Crc16.ErasedAvrBlock | include/h9avr/node_id.h:69-72 | marker and any counter in front of erased bytes never make a valid block on the first lap |
| CyclicCounters.SequenceOrders | include/h9avr/node_id.h:84-86 | the AVR comparison orders wrapped numbers within 127 of each other |
| CyclicCounters.CounterOrders | pic/ee_mem.c:54-82 | the PIC comparison orders wrapped numbers within 112 of each other |
| CyclicCounters.WindowsAreTight | pic/ee_mem.c:54-82 | one step beyond either window the newer number is no longer seen |
| CyclicCounters.NewestIsLogicallyNewest | include/h9avr/node_id.h:75-94 | scanning wrapped counters within the window finds the first entry with the largest unbounded number |
| ByteWrites.ApplyRecordPokes | include/h9avr/node_id.h:106-118 | a cut-off record write leaves the new bytes up to the cut and the old bytes behind it |
| Records.ValidIffResidue | pic/ee_mem.c:104-124 | a record is valid if and only if it starts with the marker and the checksum over all its bytes, the stored one high byte first, is zero |
| Records.CounterChangeBreaksSeal | include/h9avr/node_id.h:27-31 | a sealed record with another counter is not sealed, so a half-written record is torn once its counter is in |
| Records.SingleByteMixSafe | include/h9avr/node_id.h:106-109 | with a one-byte value every mix of an old record and the new one that passes the checksum reads as old or new |
| Records.OverwriteProgress | include/h9avr/node_id.h:106-109 | at every byte of an overwrite the record is dormant with its old counter, torn, or complete with the new one |
| Eeproms.Layout.ViewOfReplay | pic/ee_mem.c:14-17 | the cells of a store change exactly as its byte writes say, wherever the records lie |
| Eeproms.Layout.ReplayKeepsTheRest | pic/ee_mem.c:14-17 | byte writes of a store change no cell outside its records |
| Eeproms.Eeprom.UpdateByte | pic/ee_mem.c:14-17 | a byte update changes one cell, or none if the cell is stuck |
| Eeproms.Eeprom.CutImage | include/h9avr/node_id.h:106-118 | after a power failure at any moment the store holds a prefix of the byte writes |
| AvrNodeId.BlockResidue | include/h9avr/node_id.h:69-72 | a block is valid if and only if it starts with 0xaa and the CRC over it, with its last two bytes exchanged, is zero |
| AvrNodeIdCode.RingsFit | include/h9avr/node_id.h:39-49 | the twenty blocks are disjoint, fit in 512 bytes and cover exactly 0x10-0x5f and 0x80-0xcf |
| AvrNodeIdCode.BlockRead | include/h9avr/node_id.h:69-72 | returns the bytes of the block and whether flags and checksum are right |
| AvrNodeIdCode.FindNodeIdBlock | include/h9avr/node_id.h:75-94 | returns slot and bytes of the entry that the scan over both copies settles on |
| AvrNodeIdCode.ReadNodeId | include/h9avr/node_id.h:97-104 | returns the id of that entry, 0 if no block is valid |
| AvrNodeIdCode.NodeIdStore | include/h9avr/node_id.h:106-118 | makes exactly the byte updates: both copies, then the flags of all others |
| AvrNodeIdCode.WriteNodeId | include/h9avr/node_id.h:120-134 | makes exactly the byte updates of a write after the newest block; WriteThenRead says what they leave |
| AvrNodeIdCode.NodeIdRepair | include/h9avr/node_id.h:144-162 | makes exactly the repair updates and returns whether there were any |
| AvrNodeId.StoreComplete | include/h9avr/node_id.h:106-118 | from any contents: the block is in both rings and no other block is valid |
| AvrNodeId.HealthyFind | include/h9avr/node_id.h:75-104 | such a store is read correctly and repair writes nothing |
| AvrNodeId.WriteThenRead | include/h9avr/node_id.h:120-134 | from any contents: the written id is read back, exactly one slot is valid, identical in both rings, with the id, 0xff and the little-endian node type; of all other blocks only the flags are cleared |
| AvrNodeId.RepairKeepsIdAndIsIdempotent | include/h9avr/node_id.h:136-162 | from any contents: repair keeps the id that is read, and a second repair writes nothing |
| AvrNodeId.RepairIsIdleIff | include/h9avr/node_id.h:144-162 | from any contents: a start writes nothing if and only if no block is valid, or both copies of one slot are valid under one number and no other block is |
| AvrNodeId.RepairLeavesSound | include/h9avr/node_id.h:144-162 | from any contents with a valid block: after a repair both copies of one slot are valid under one number, and no other block is |
| AvrNodeId.OneDamagedBlock | include/h9avr/node_id.h:11-15 | any one damaged block leaves the id readable, and repair restores both copies |
| AvrNodeIdRuns.FindsCurrent | include/h9avr/node_id.h:75-94 | in every image of a run the scan finds the first copy of the last write, woken-up stale blocks or not |
| AvrNodeIdRuns.WriteIsSafe | include/h9avr/node_id.h:106-134 | a write cut off after any byte leaves the old id or the new one stored |
| AvrNodeIdRuns.RepairIsSafe | include/h9avr/node_id.h:144-162 | a repair cut off after any byte keeps the id; complete, it makes the store ready for writing |
| AvrNodeIdRuns.RunKeepsInvariant | avr/can.c:120-121 | the invariant holds after every event of every run |
| AvrNodeIdRuns.NumbersStayWithinTen | include/h9avr/node_id.h:84-86 | in every reachable state the numbers of the valid blocks are within 10 of each other |
| AvrNodeIdRuns.ReadIdIsAtomicRegister | include/h9avr/node_id.h:75-162 | over every run with cuts anywhere the id read is the last completed one or the one being written when power failed |
| AvrNodeIdForeign.CutsAreSafeIff | include/h9avr/node_id.h:106-134 | from a healthy store with any bytes in its invalid blocks: a write cut off anywhere reads the old or the new id if and only if the next slot holds no foreign block that its flags or its new sequence number wake |
| AvrNodeIdForeign.ForeignBlockIsRead | include/h9avr/node_id.h:106-118 | it happens: a healthy store that reads a third id after one byte of a write |
| PicEeMemCode.InterleaveIsPermutation | pic/ee_mem.c:9 | multiplying by three modulo sixteen is a permutation of the sectors |
| PicEeMemCode.NextSectorIsThreeFurther | pic/ee_mem.c:9 | the sector of the next write lies three positions further |
| PicEeMemCode.SectorsAreAligned | pic/ee_mem.c:8-9 | sectors are as close as multiples of four bytes allow, and start at such a multiple |
| PicEeMemCode.SectorsFit | pic/ee_mem.c:8-9 | the sectors of any size are disjoint and span sixteen strides |
| PicEeMemCode.UserDataIsSeparate | include/h9pic/ee_mem.h:13-15 | user data and node id share no cell if and only if the data has at most four bytes |
| PicEeMemCode.StoresDoNotInterfere | include/h9pic/node_id.h:16-36 | with at most four bytes of user data, no sequence of operations of either store changes what the other reads |
| PicEeMem.SectorResidue | pic/ee_mem.c:104-124 | a sector is valid if and only if it starts with 0xa5 and the CRC over all its bytes is zero |
| PicEeMemCode.ReadSector | pic/ee_mem.c:104-124 | returns whether the sector is valid, and then its counter and data |
| PicEeMemCode.WriteSectorAndVerify | pic/ee_mem.c:126-147 | makes the byte updates in ascending order and succeeds exactly if the sector then holds the record |
| PicEeMemCode.FindNewestSector | pic/ee_mem.c:158-175 | returns the sector the scan settles on, its counter and the number of valid sectors |
| PicEeMemCode.ReadDataFrom | pic/ee_mem.c:177-186 | returns the value of that sector |
| PicEeMemCode.FindSecondCopy | pic/ee_mem.c:196-213 | finds out whether a sector with the previous counter holds the same data |
| PicEeMemCode.ReadDataAndRefresh | pic/ee_mem.c:188-219 | returns the value and makes exactly the byte updates of a refresh; RefreshIsIdleIff and RefreshLeavesPair say when there are any and what they leave |
| PicEeMemCode.PlaceCopies | pic/ee_mem.c:227-236 | places copies in the sectors after the newest one, skipping those that fail to verify |
| PicEeMemCode.InvalidateStale | pic/ee_mem.c:238-245 | clears the magic byte of exactly the other sectors that have one |
| PicEeMemCode.WriteData | pic/ee_mem.c:221-246 | makes exactly the byte updates of a write, with any set of faulty cells |
| PicEeMemCopies.TwoGoodSectorsSuffice | pic/ee_mem.c:227-236 | if two sectors other than the newest work (for fewer see PicEeMemFaults), two distinct verified copies with consecutive counters result, and the newest sector keeps its value at every byte until then |
| PicEeMemFaults.WriteLeaves | pic/ee_mem.c:221-246 | for any faulty cells and contents: what every sector holds after a complete write, in terms of the contents before |
| PicEeMemFaults.NothingIsInvalidated | pic/ee_mem.c:238-245 | if fewer than two sectors take a copy, no magic byte is cleared at any moment of the write |
| PicEeMemFaults.OldOrNewIsReadIff | pic/ee_mem.c:221-246 | with any faulty cells a complete write leaves the old or the new value readable if and only if some sector takes the data, nothing was stored, or the newest sector that does not change at all holds one of them |
| PicEeMemFaults.HealthyStoreIsReadIff | pic/ee_mem.c:221-246 | from two copies: the new value if a sector takes it, else the old one if one of the copies does not change, else nothing |
| PicEeMemFaults.HarmlessCellsForgeNothing | pic/ee_mem.c:126-147 | with at most two neighbouring faulty cells in each sector no mix of stuck and new bytes is a complete sector |
| PicEeMemFaults.ForgedValueIsRead | pic/ee_mem.c:126-147 | with three it can be: a complete write, verified in one sector, is read as a third value from another |
| PicEeMemFaults.ForgingStoreExists | pic/ee_mem.c:126-147 | such a store exists for every stored value of three bytes |
| PicEeMemFaults.WriteCanLoseBoth | pic/ee_mem.c:227-236 | the sixteenth attempt overwrites the newest sector: with a dead counter cell there and no other usable sector, any complete write leaves neither value |
| PicEeMemFaults.WeakStoreExists | pic/ee_mem.c:227-236 | such a store exists for every size and every value |
| PicEeMemCopies.WriteLeavesPair | pic/ee_mem.c:221-246 | after two verified copies, with working magic cells, exactly these two sectors are valid |
| PicEeMemCopies.PairIsHealthy | pic/ee_mem.c:188-219 | two copies with consecutive counters are read back and refresh writes nothing |
| PicEeMemCopies.WriteThenRead | pic/ee_mem.c:177-246 | from any contents, with two working sectors besides the newest and working magic cells: the data is read back, exactly two sectors are valid, refresh writes nothing |
| PicEeMemRefresh.RefreshIsIdleIff | pic/ee_mem.c:188-219 | from any contents: a refresh writes nothing if and only if no sector is valid, or two copies of the value read with consecutive counters are the only valid ones |
| PicEeMemRefresh.RefreshLeavesPair | pic/ee_mem.c:188-219 | from any contents with a valid sector: after a refresh two copies of the value read with consecutive counters are the only valid ones |
| PicEeMemCopies.LostCopyIsRestored | pic/ee_mem.c:188-219 | after either copy is lost the value is still read and refresh restores two copies |
| PicEeMemRuns.WriteIsSafe | pic/ee_mem.c:221-246 | a write cut off after any byte leaves the old value or the new one stored |
| PicEeMemRuns.ReadsStored | pic/ee_mem.c:158-186 | in every image of a run the scan finds the newest sector and reads the stored value |
| PicEeMemRuns.CutReadsAreSafeIffUnambiguous | pic/ee_mem.c:126-246 | cut-off writes read as old or new if and only if no half-written copy passes for a third value |
| PicEeMemRuns.OneByteIsUnambiguous | pic/ee_mem.c:126-246 | for one-byte values this condition always holds |
| PicEeMemRuns.EverySizeFormat | pic/ee_mem.c:104-124 | for every size from 1 to 255 a sector of erased bytes is not valid with the magic byte and any counter in front |
| PicEeMemMixes.ThreeByteValueCanBeMixed | pic/ee_mem.c:126-147 | in every stored image over an old 00 00 00, its magic byte cleared or not, a write of 12 31 01 can be read as neither value |
| PicEeMemMixes.ThreeByteRun | pic/ee_mem.c:126-246 | it happens in a run from an erased EEPROM: eight complete writes and a cut-off one are read as 12 31 00 |
| PicEeMemMixes.TwoByteRun | pic/ee_mem.c:126-246 | a run in which two bytes are mixed: two cut-off writes with a start between them, which finds nothing to refresh |
| PicEeMemMixes.TwoBytesAreUnambiguous | pic/ee_mem.c:126-246 | from every image of a run whose next sector is not torn, a two-byte write cut off anywhere reads as old or new |
| PicEeMemRuns.NumbersStayWithinOneLap | pic/ee_mem.c:54-82 | in every reachable state the numbers of the valid sectors are within 15 of each other |
| PicEeMemRuns.ReadDataIsAtomicRegister | pic/ee_mem.c:126-246 | over every run with cuts anywhere, also between the two copies, the value read is the last completed one or the one being written |
| PicEeMemForeign.CompleteWriteIsHealthy | pic/ee_mem.c:221-246 | with working cells a complete write over any contents leaves exactly two valid sectors, neighbours with consecutive counters |
| PicEeMemForeign.CutsAreSafeIff | pic/ee_mem.c:126-246 | from such a store with any bytes in its invalid sectors, for every size: a write cut off anywhere reads as old or new if and only if the next two sectors hold nothing that their magic byte wakes and the scan prefers, and no mix with the new copy passes |
| PicEeMemForeign.ForeignSectorIsRead | pic/ee_mem.c:126-147 | for any three values of one size: a healthy store of the first reads as the third when a write of the second is cut off |
| BootProtocol.StrangersDoNotInterfere | avr_bootloader/bootloader.c:73-89 | with a locked host, deleting all frames of other nodes changes neither the frames sent nor the flash nor the state |
| BootSessions.FirstCommand | avr_bootloader/bootloader.c:166-191 | an idle bootloader only sends BOOTLOADER_TURNED_ON after every timeout, up to the first PAGE_START of an application page or QUIT_BOOTLOADER that it hears |
| BootSessions.PageIsStarted | avr_bootloader/bootloader.c:173-180 | that PAGE_START locks its sender, starts the page and requests its first eight bytes |
| BootSessions.LeftIff | avr_bootloader/bootloader.c:182-185 | over every event sequence: the bootloader has left if and only if it heard a QUIT_BOOTLOADER of dlc 0 while it was idle, from the locked host or before a lock |
| BootSessions.HostIsFirst | doc/bootloader.md:112-114 | over every event sequence: the locked host is the sender of the first PAGE_START of an application page, unless a QUIT_BOOTLOADER came first |
| BootPages.PageTranscript | avr_bootloader/bootloader.c:52-113 | for every event sequence, told from the events alone: consecutive requests, each sent again after every timeout; the page is over exactly with the last answer, the fourth timeout without an answer or another frame of the host; then one report with the page the concatenation of the answers, or one break with the page erased (PIC18F-Q84: as it was) |
| BootPages.HostOnlyFills | avr_bootloader/bootloader.c:83-85 | while a page is being filled the host has sent nothing but PAGE_FILL |
| BootPages.InterruptionEndsPage | avr_bootloader/bootloader.c:83-85 | any other frame of the host abandons the page with one PAGE_FILL_BREAK |
| BootFlashing.StepKeepsInv | doc/bootloader.md:119-123 | with up to 33 frames in flight every step of node, host, queues, losses and strangers keeps the invariant |
| BootFlashing.BehaviourKeepsInv | doc/bootloader.md:97-123 | the invariant holds in every reachable world |
| BootFlashing.FinishedPagesAreSafe | doc/bootloader.md:119-123 | in every reachable world all pages below the host's equal the image, and the node leaves only with the whole image in flash |
| BootFlashing.FinishedPagesStay | doc/bootloader.md:119-123 | after every later step a finished page still holds the image: the protocol never starts it again |
| BootProgress.FlashingCanAlwaysFinish | doc/bootloader.md:97-123 | from every reachable world with the node still in the bootloader the run can go on so that the node leaves, with the whole image in flash |
| BootCapacity.ThirtyFourIsTooMany | doc/bootloader.md:93-101 | with 34 frames in flight, for every image whose first sixteen bytes are not twice the same eight, a run after which the host is done with a page that is wrong in flash |
| BootCapacity.TooManyIsPossible | doc/bootloader.md:93-101 | there is such an image |
| BootFlashing.AcceptedDataIsRight | doc/bootloader.md:93-101 | an accepted PAGE_FILL carries exactly the bytes at the place the node waits for |
| BootCode.Port.AwaitAnswer | avr_bootloader/bootloader.c:74-89 | the wait loop reacts to every event as the state machine does and ends only as the source does |
| BootCode.AvrBootloader.StoreChunk | avr_bootloader/bootloader.c:91-94 | the word loop stores the eight bytes in order, low byte first |
| BootCode.AvrBootloader.WritePage | avr_bootloader/bootloader.c:52-113 | sends the frames and leaves the flash of the state machine for all events it takes |
| BootCode.AvrBootloader.Serve | avr_bootloader/bootloader.c:166-191 | the main loop sends the frames and leaves the flash of the state machine for the whole script |
| BootCode.Q84Bootloader.WriteBlock | pic_bootloader/bootloader.c:154-211 | the same for the PIC18F-Q84, and the bootloader area does not change |
| BootCode.LeftForEver | avr_bootloader/bootloader.c:182-185 | after QUIT_BOOTLOADER nothing more is taken or sent |
| BlockFlash.Flash.Begin | pic_bootloader/bootloader.c:82-91 | the page of the block is copied to the buffer |
| BlockFlash.Flash.Put8 | pic_bootloader/bootloader.c:93-96 | eight bytes replace those at the place of the block |
| BlockFlash.Flash.Commit | pic_bootloader/bootloader.c:98-114 | the buffer is stored, although all-ones words are skipped; words are only written to erased cells; nothing happens on top of the bootloader |
| BlockFlash.Flash.WriteBlock | pic_bootloader/bootloader.c:82-117 | a block write is a plain replacement of 64 bytes, or nothing |
| BlockFlash.EveryBlockHoldsItsLastCommit | pic_bootloader/bootloader.c:52-61 | over any sequence of complete and abandoned blocks every block holds its last complete write |
| BlockFlash.BootloaderIsNeverTouched | pic_bootloader/bootloader.c:98-100 | over any such sequence no byte at or above the bootloader start changes |
| BlockFlash.BlockIsProtocolPage | pic_bootloader/bootloader.c:154-211 | the flash changes exactly as the protocol says about a page that is not erased first |
| HoldingFlash.K80Flash.WriteBlock | pic_bootloader/bootloader.c:118-151 | erase, table writes and one write command store the block whatever the holding registers held; an abandoned block stays erased |
| HoldingFlash.ErasedBlockIsProtocolPage | pic_bootloader/bootloader.c:118-151 | the flash changes exactly as the protocol says about a page that is erased first; the bootloader stays |
| Rings.Pushed | avr/can.c:388-399 | filling the top slot appends to the contents and does not touch the oldest slot |
| Rings.Popped | avr/can.c:352 | moving the bottom removes the oldest entry |
| Rings.NewestReplaced | avr/can.c:275-286 | overwriting the slot below the top replaces the newest entry |
| RxRing.ArrivalKeepsInv | avr/can.c:387-402 | a frame is dropped exactly when 15 are pending; the slot being read is not touched |
| RxRing.AccessKeepsInv | avr/can.c:326-353 | every access of the reader keeps the invariant |
| RxRing.FramesComeOutOnceInOrder | avr/can.c:318-404 | under every interleaving frames come out untorn, once and in order, every arrival is accepted or dropped, and a loss is always flagged but between two statements |
| RxRing.EveryReportIsALoss | avr/can.c:326-332 | no false alarm: in every run each report of a loss, made or pending, stands for a frame of its own that was dropped or for an overflow of the controller |
| RxRing.NoLossNoFlag | avr/can.c:326-332 | without an overflow of the controller no loss flag is set before a frame is dropped |
| RxRing.WholeSlotIsTaken | avr/can.c:334-350 | the bytes the reader takes determine the whole slot |
| RxRing.LossUnreportedForAMoment | avr/can.c:327-331 | that exception is real: a run after which a frame is lost and no flag is set |
| RxObject.StoppedIffMissed | avr/can.c:387-426 | in every reachable state the frames received are those handed to the buffer, once and in order, one waiting and one missed; the message object has stopped if and only if one was missed |
| RxObject.ClearStopsIff | avr/can.c:401-426 | clearing the flag stops the object if and only if a reception finished after the object was armed or tested |
| RxObject.NeverStops | avr/can.c:387-404 | if no reception finishes inside the interrupt the object never stops |
| RxObject.StoppedForEver | avr/can.c:387-426 | a stopped object receives and hands over nothing more, whatever happens |
| RxObject.ReceptionCanStop | avr/can.c:424-426 | a run that stops it |
| RxCode.Receiver.Interrupt | pic/18F46K80/ecan.c:27-37 | the interrupt makes the atomic step of the model |
| RxCode.Receiver.ReportLoss | pic/18F46K80/ecan.c:162-166 | a loss is reported if the flag was set, and only if a frame was dropped or the controller overflowed |
| RxCode.Receiver.GetMsg | pic/18F46K80/ecan.c:162-178 | interrupted anywhere, the call returns the oldest frame that was pending when it began, untorn; it reports every earlier loss, and over all calls never more losses than there were |
| TxQueue.StepKeepsInv | avr/can.c:224-292 | every step of CAN_put_msg, CAN_try_put_msg, the controller and the interrupt keeps the invariant |
| TxQueue.EveryFrameIsAccountedFor | avr/can.c:224-292 | accepted and fault frames are those transmitted, in the message object, queued or overwritten; each load is sent once and in order; the queue is first in, first out with at most seven frames; it is stranded exactly after a missed flag |
| TxQueue.QueueIsNeverStranded | avr/can.c:406-422 | if no transmission finishes inside the error branch, a queued frame always has a transmission or its flag pending |
| TxQueue.ErrorClearStrandsIff | avr/can.c:424-426 | clearing the flags strands the queue exactly when a transmission finished after the test and frames are queued |
| TxQueue.StrandedUntilNextPut | avr/can.c:406-426 | a stranded queue stays as it is until the next frame is put, which overtakes and wakes it |
| TxQueue.QueueCanBeStranded | avr/can.c:424-426 | a concrete run that strands a queued frame |
| TxCode.Transmitter.TryPutMsg | avr/can.c:224-250 | loads the message object exactly if it is free and then clears its flag; otherwise changes nothing; the queue stays |
| TxCode.Transmitter.PutMsg | avr/can.c:252-292 | sends directly, queues at the end, or refuses only when seven are queued, with the return values of the source; a bus error then replaces the newest queued frame and sets the sticky flag, and nothing else changes |
| TxCode.Transmitter.Enqueue | avr/can.c:259-288 | queues, or on a bus error replaces the newest queued frame and sets the sticky flag |
| TxCode.Transmitter.TransmitInterrupt | avr/can.c:406-421 | clears the flag and takes the oldest frame of the queue, if there is one, out of it into the message object |
| TxCode.Transmitter.ErrorInterrupt | avr/can.c:424-426 | the error branch strands the queue exactly if a transmission finishes inside it while frames are queued |
| MultiFrame.SendRegValue | avr/can.c:488-527 | for every value, the frames of the documented table: flags 0, or 1, 2, ..., 2, 3, the registry, the count in the first and the index in the others, six bytes each, destination and number |
| MultiFrame.CountIsRightIff | pic/can.c:229-234 | the frame count fits its byte if and only if the value has at most 1530 bytes |
| MultiFrame.RoundTripIff | doc/protocol.md:218-228 | the value is recovered by index from its frames in any order and with repetitions, if and only if it has 1 to 1530 bytes |
| CanIds.FieldsOfId | doc/protocol.md:28-42 | type, source, flags, destination, number or group are in the documented bits of the identifier |
| CanIds.FamiliesSendId | include/h9pic/common.h:7-22 | AVR and ECAN registers carry the same 29-bit identifier |
| CanIds.FamiliesReceive | pic/can.c:195-204 | both decoders recover the header from the identifier |
| CanIds.CanfdReceivesId | pic/18FXXQ84/canfd.c:72-86 | a received message object gives the ECAN registers of its identifier |
| CanIds.FamiliesInteroperate | avr/can.c:337-346 | encoding by any family and decoding by any other is the identity, also through message objects; different headers have different identifiers |

## Left out

- Register setup, bit timing, pins, watchdog, reset reasons, the jump to the application, and node
  information and register dispatch: no algorithm, or shallow branches.
- Time: a receive timeout may happen at any moment; the host's ten-second limit is not modelled.
- EEPROM hardware: byte writes are atomic, and a block update goes in ascending address order; a byte
  that does not change is still listed as a write.
- Faulty EEPROM cells together with power failures: complete writes are proved with any faulty cells,
  runs with power failures on working cells.
- PicEeMemFaults.OldOrNewIsReadIff: the counters of the contents before are within the window of the
  comparison and no mix of stuck and new bytes is a complete sector; without that, WriteLeaves gives
  the sectors and the scan decides.
- Runs with several power failures over contents that were not erased: one cut-off write after a
  complete one is covered by AvrNodeIdForeign.CutsAreSafeIff and PicEeMemForeign.CutsAreSafeIff.
- The AVR store on faulty cells: its code has no verification step; one damaged block is covered by
  OneDamagedBlock.
- Flash hardware: page erase gives all ones, the AVR page buffer is fresh for each page, a word or
  block is programmed as given; the cells of an abandoned AVR page are erased.
- Frames longer than eight bytes and remote frames; the group of BOOTLOADER_TURNED_ON and its version
  bytes, which are fixed data.
- Other nodes before the first accepted PAGE_START, which may lock the bootloader to them or make it
  leave; and queues that duplicate or reorder frames.
- FinishedPagesStay: says nothing about the moments inside a step. BlockFlash.Flash.Commit on the
  PIC18F-Q84 erases a page of 256 bytes, which can hold up to three finished blocks, and writes all
  of it back; a power failure in between is not modelled.
- RxObject: one message object, and no power or bus failure; the other objects behave alike.
- PIC main loop: it is the AVR one with write_block in place of write_page; only write_block is
  modelled. On the PIC18F46K80 write_block is modelled by the protocol and its flash routines.
- Receive overflow flags of the PIC18F46K80 controller: the model lets the test of them give any
  result.
- TxQueue: message object 0 keeps a frame until it is sent; aborted transmissions and the state of
  the bus are not modelled, a bus error is a parameter of CAN_put_msg.
- Transmit buffers of the PIC families, which hold frames in hardware.
- MultiFrame: frames that CAN_put_msg refuses are not resent by the source; the receiver is proved
  for complete deliveries.
- Reordering of the non-volatile slot accesses by the C compiler.
