# Airoha Ethernet driver: verified model

The repository holds a kernel driver for Airoha system-on-chip devices.  This project models
five of its components that carry state, loops or arithmetic, and proves what they keep.
Registers, clocks, the DMA API and the devices are explicit state or parameters.  Code that
works on registers and tables step by step is written as classes with methods and loops; each
method is proved against a specification on values, and the properties are lemmas about that
specification and about runs of it.  `dafny verify dfyconfig.toml` checks everything.

| module | component |
|---|---|
| `PhyMailbox` | the AN8831 mailbox: an alternating-bit protocol over one counter shared by all PHYs |
| `FirmwareUpload` | cutting an image into messages, the device's reading of them, and both over the mailbox |
| `L2bEtherTypes`, `Loopback` | the packed ether-type table and the four-step enable with rollback over it |
| `ShrinkTable` | the 16-slot cache of address keys, with ageing, pinning, users and hardware copy |
| `TxRing` | the transmit ring: free list, descriptor chain, error path, completion |
| `LroRings` | the LRO ring allocator |
| `RateLimit` | shift search, token rates, bucket sizes |
| `QosScheduler` | the transmit scheduler and its shadow of write-only registers |
| `PseReservation` | per-queue buffer reservation, its total and the thresholds |
| `ChannelRetire` | channel release and drain around saved enable registers |
| `Words` | machine words |

## Assumptions about the environment

- A mailbox device services a command when its parity is new, and its status then carries that
  parity (the comment at arht_hsgmii.h:813-814); between polls it does anything else it likes.
  The host's clock advances by at least the delay of each poll.
- The upload's device stores bulk data at a cursor, and writes memory to flash on command; an
  erase sets all bits of the bytes it names, a write only clears bits, and neither goes past
  the end of the chip.
- The transmit hardware follows NEXT_ID up to CPU_IDX.  Completion is the one of the patch
  cited below: the entry is appended to the free list, in any order of completion.
- The flow table is a parameter of every call that reads it and may differ between calls.
- The sets of queues on ports 6 to 10 are not part of this model; the queue counts are
  parameters.

## What the code does not keep

Each is stated with its exact condition; the code is modelled as it is.

- A wait leaves on an error status, or on its timeout, without looking at parity: a left-over
  error, or a left-over success, is taken for the new command's (`FreshExactly`,
  `TimeoutReturnsLeftover`).
- An odd number of commands to other PHYs loses the next command (`SharedCounter`,
  `MisalignedCommandIsLost`), and a command that is not serviced in time costs the next one too
  (`AlignedAfterExactly`, `UnservicedCostsTwo`).  A sequence sent out of step loses its first
  message only (`ServedExactly`); for an update that is a pause command (`UploadOverMailbox`).
- The upload copies whole sectors out of the firmware blob, so it reads past the end of every
  blob that is not a whole number of sectors (`StaysInsideExactly`, `OneByteFirmware`).  What
  is read there reaches the device only as padding to whole words (`PaddingExactly`); the
  results about uploads hold for blobs of any size and whatever lies behind them.
- The erase stops one byte before the end of the chip, so an image that ends on the chip's last
  byte may lose it (`UploadProgramsImage`, `LastByteIsLost`).  Whole sectors are written but
  only the image's bytes are erased and sent: the rest of the last sector is and-ed with the
  sector before (`Littered` in `UploadProgramsImage`).
- Rollback and disable zero the slots they had claimed, so a stale PPPoE flag of a free slot is
  not restored, by a failed enable (`AllOrNothing`, `StaleFlagIsLostOnFailure`) or by enable
  and disable (`EnableThenDisable`, `StaleFlagIsLost`).
- A mapping failure after the first fragment rotates the free list; a packet committed before
  the rotations add up to whole turns breaks the descriptor chain (`FailureKeepsChainExactly`,
  `CommitNeedsPlace`, `DroppedPacketIsFetched`, `DroppedPacketOnRingOfFour`), and the completion
  of the wrong descriptor frees an entry twice (`EntryFreedTwice`).  The repository's 157-v7.2
  patch repairs the sibling function of the upstream driver.
- Lengths of 65536 and more are unmapped with a cut length (`FailureUnmapsWhatItMapped`,
  `LongFragmentNotUndone`).
- The sweep's bitmap scan assumes 32-bit words; with 64-bit words a bound user may not protect
  its cell (`SweepSafetyExactly`, `SweepMissesBoundUser`).  The lookup's own expiry test does
  not look at users at all (`LookupIgnoresUsers`, `LookupDropsBoundUser`).
- Pinning an address that a lookup inserted first leaves it in two slots
  (`PinKeepsUniqueExactly`).
- An entry can come to hold two LRO rings (`SingleHoldersExactly`, `DoubleReservation`).
- The two copies of the shift search differ at the unit (`CopiesAgreeExactly`), and a packet
  unit does not fit its 16 bits for ticks below 16 (`UnitKeptExactly`, `UnitIsCut`).
- An ingress packet meter can be left with a new rate and an old bucket
  (`BucketTooLargeExactly`, `BucketIsRefused`, `Meter.SetValue`).
- Weights of 256 and more, and zeros on strict-priority queues, do not come back
  (`RoundTripExactly`), and a retry after a timeout opens queues (`RetryExactly`).
- A reservation total that does not fit its 15 bits sets the bit above them for good
  (`OverflowSticks`), the total itself wraps, and the thresholds lose their order when the limit
  leaves too little room (`ExcessKept`, `TotalWraps`, `OrderedExactly`,
  `ThresholdsOutOfOrder`).

Comments that disagree with the code: the comment at arht_fe.c:1541 says the default is
channel drop, the variable at arht_fe.c:22 selects retire; the model takes the choice as a
parameter.  `ppe_entry_is_valid` returns zero for a valid entry.

## Model

| member | source | states |
|---|---|---|
| PhyMailbox.CommandRoundTrip | airoha/files/drivers/net/ethernet/airoha/arht_hsgmii.c:1324-1347 | The device reads back, for every opcode and size, the low bits the host packed and its parity. |
| PhyMailbox.StatusRoundTrip | airoha/files/drivers/net/ethernet/airoha/arht_hsgmii.c:1246-1270 | Parsing the status word and packing it are inverse in both directions. |
| PhyMailbox.NewExactlyWhenAligned | airoha/files/drivers/net/ethernet/airoha/arht_hsgmii.c:1324-1347 | A built command is new to a PHY, and host and device are consistent after it, exactly when the PHY last serviced the parity of the last command built; counter wrap included. |
| PhyMailbox.GuardExitIsFresh | airoha/files/drivers/net/ethernet/airoha/arht_hsgmii.c:1376-1395 | A wait that leaves by its loop guard reports success of the command in the register, whatever the device did between the polls. |
| PhyMailbox.FreshExactly | airoha/files/drivers/net/ethernet/airoha/arht_hsgmii.c:1376-1395 | For a newly sent command every wait that does not time out is fresh, in all environments, exactly when the status left over is a success: a left-over error is taken for the new command's. |
| PhyMailbox.TimeoutReturnsLeftover | airoha/files/drivers/net/ethernet/airoha/arht_hsgmii.c:1376-1395 | With a success left over, a wait returns the command's own status exactly when the device services it at a poll the clock still allows; otherwise it ends by the timeout with the left-over success, whatever else the device does. |
| PhyMailbox.TransactFresh | airoha/files/drivers/net/ethernet/airoha/arht_hsgmii.c:1307-1396 | One command and wait on an aligned PHY: a guard exit returns this command's status and leaves the PHY aligned. |
| PhyMailbox.RunsAreFresh | airoha/files/drivers/net/ethernet/airoha/arht_hsgmii.c:1307-1396 | Over every run on one synchronised PHY whose waits left by the guard, the i-th wait returned the status of the i-th command. |
| PhyMailbox.SharedCounter | airoha/files/drivers/net/ethernet/airoha/arht_hsgmii.c:1318-1347 | After n transactions with other PHYs this PHY is aligned exactly when n is even. |
| PhyMailbox.MisalignedCommandIsLost | airoha/files/drivers/net/ethernet/airoha/arht_hsgmii.c:1349-1396 | Out of step the command is never serviced, and a left-over success is reported for it at the first poll. |
| PhyMailbox.LossRealigns | airoha/files/drivers/net/ethernet/airoha/arht_hsgmii.c:1340-1347 | The lost command itself puts the host back in step. |
| PhyMailbox.AlignedAfterExactly | airoha/files/drivers/net/ethernet/airoha/arht_hsgmii.c:1307-1396 | Whichever way a wait ends, the PHY is in step after it exactly when it was not before or its own command was serviced. |
| PhyMailbox.UnservicedCostsTwo | airoha/files/drivers/net/ethernet/airoha/arht_hsgmii.c:1307-1396 | A command not serviced before its wait gives up costs the next command to that PHY too, and no more. |
| PhyMailbox.TwoAreSent | airoha/files/drivers/net/ethernet/airoha/arht_hsgmii.c:1404-1416 | A resynchronisation sends two commands: the counter moves by two, and the register ends with a word of opcode and size zero whose parity is that of the counter after the first. |
| PhyMailbox.SecondIsNewExactly | airoha/files/drivers/net/ethernet/airoha/arht_hsgmii.c:1404-1416 | The second command is not new to the PHY exactly when host and PHY were in step before and nothing was serviced in the delay between the two. |
| PhyMailbox.Resynchronises | airoha/files/drivers/net/ethernet/airoha/arht_hsgmii.c:1398-1434 | From every counter value and device state the counter moves by two, and host and device end aligned, so that the next command is new, exactly when they were in step before and the device serviced nothing in the delay between the two NOOPs, or it services the second within two seconds; the last parity test is true exactly then. |
| PhyMailbox.IpcHost.BuildCmd | airoha/files/drivers/net/ethernet/airoha/arht_hsgmii.c:1324-1347 | The word built has the old counter's parity as its top bit, zero reserved bits, and the low bits of size and opcode; the counter moves by one and wraps at 32 bits. |
| PhyMailbox.IpcHost.WaitCmdDone | airoha/files/drivers/net/ethernet/airoha/arht_hsgmii.c:1349-1396 | The polling loop ends with the device and status that the wait over this environment defines, with success, error or after the time; no other PHY is touched. |
| PhyMailbox.IpcHost.Synchronise | airoha/files/drivers/net/ethernet/airoha/arht_hsgmii.c:1398-1434 | The counter moves by two, no other PHY is touched, and the PHY is reported in step exactly under the condition of Resynchronises. |
| FirmwareUpload.BulkDataExactly | airoha/files/drivers/net/ethernet/airoha/arht_hsgmii.c:1469-1495 | A bulk-data message carries its words with an exact size field exactly when there are at most eight. |
| FirmwareUpload.CfgExactly | airoha/files/drivers/net/ethernet/airoha/arht_hsgmii.c:1497-1516 | A direct configuration message carries its sub-command and all parameters with an exact size exactly when there are at most seven. |
| FirmwareUpload.ChunksCarryWords | airoha/files/drivers/net/ethernet/airoha/arht_hsgmii.c:1980-1991 | The chunks of a word list are bulk-data messages of one to eight words with exact sizes, as few as possible, and concatenated they are the list. |
| FirmwareUpload.SectorIs | airoha/files/drivers/net/ethernet/airoha/arht_hsgmii.c:1966-1997 | A sector on the wire: 4096 bytes announced at 0x33e000, the data in messages of opcode 0xa with exact sizes of at most 16, and 4096 bytes from there written to the sector's flash address. |
| FirmwareUpload.UploadSendsImage | airoha/files/drivers/net/ethernet/airoha/arht_hsgmii.c:1961-1997 | For every image, over all sectors and chunks, the words sent are the image padded to whole words, in order, nothing skipped or repeated, and every bulk message is exact. |
| FirmwareUpload.StaysInsideExactly | airoha/files/drivers/net/ethernet/airoha/arht_hsgmii.c:1960-1965 | The copies stay inside the firmware blob exactly when its size is a whole number of sectors. |
| FirmwareUpload.OneByteFirmware | airoha/files/drivers/net/ethernet/airoha/arht_hsgmii.c:1960-1965 | A firmware of one byte is read 4095 bytes past its end. |
| FirmwareUpload.PaddingExactly | airoha/files/drivers/net/ethernet/airoha/arht_hsgmii.c:1953-1997 | For a blob of any size, two uploads are the same exactly when the memory behind the blob agrees up to the padded length: nothing else that is read past the end is sent. |
| FirmwareUpload.ChunksLand | airoha/files/drivers/net/ethernet/airoha/arht_hsgmii.c:1980-1991 | The device that stores bulk data at its cursor ends with the words one behind the other in memory and nothing else changed. |
| FirmwareUpload.UploadProgramsImage | airoha/files/drivers/net/ethernet/airoha/arht_hsgmii.c:1928-1999 | For every image and address, after the messages were obeyed the chip holds the padded image exactly when it ends below the last byte of the chip, or on it and clears only bits still set there; for an address on the chip the rest of the last sector is and-ed with the sector before, or with what device memory held, and nothing outside the image's sectors changed. |
| FirmwareUpload.LastByteIsLost | airoha/files/drivers/net/ethernet/airoha/arht_hsgmii.c:1911-1912 | Four bytes uploaded to the end of a chip that is zero there: the erase stops one byte short and the last byte is lost. |
| FirmwareUpload.ServedExactly | airoha/files/drivers/net/ethernet/airoha/arht_hsgmii.c:1307-1396 | When every wait leaves by its guard the device obeys all messages in order if the host was in step at the start, and all but the first if it was not. |
| FirmwareUpload.UploadOverMailbox | airoha/files/drivers/net/ethernet/airoha/arht_hsgmii.c:1928-1999 | From any state of host and device, in step or not, for a blob of any size and whatever lies behind it, an update whose waits end by their guards leaves the padded blob in flash exactly when it fits the chip. |
| FirmwareUpload.Uploader.SendMsg | airoha/files/drivers/net/ethernet/airoha/arht_hsgmii.c:1307-1315 | At most eight data registers are set, then one command word with the size cut to five bits goes out. |
| FirmwareUpload.Uploader.SendBulkData | airoha/files/drivers/net/ethernet/airoha/arht_hsgmii.c:1469-1495 | The element count becomes a word count by width (halved rounding up, kept, doubled in 16 bits); up to eight words the message is exact. |
| FirmwareUpload.Uploader.CfgParamDirect | airoha/files/drivers/net/ethernet/airoha/arht_hsgmii.c:1497-1516 | The word in front of the caller's data is overwritten before the command goes out and never sent. |
| FirmwareUpload.Uploader.SetFsmMode | airoha/files/drivers/net/ethernet/airoha/arht_hsgmii.c:1867-1878 | One direct configuration message with the four parameters in order, whatever stands in front of them. |
| FirmwareUpload.Uploader.SendChunks | airoha/files/drivers/net/ethernet/airoha/arht_hsgmii.c:1980-1991 | The inner loop sends exactly the chunks of the first `total` words and ends. |
| FirmwareUpload.Uploader.UpdateFlash | airoha/files/drivers/net/ethernet/airoha/arht_hsgmii.c:1928-1999 | Five pauses go out first, for the state machines 0x81, 0x8c, 0x8d, 0x8e and 0x91 in this order, and alone when the file cannot be loaded; the sixth message is the erase of the padded length, cut off at the chip's end; the sector loop then sends exactly the upload of the padded image, copies exactly the whole sectors it touches, and ends. |
| L2bEtherTypes.AutoSetThenFind | airoha/files/drivers/net/ethernet/airoha/arht_ppe.c:4157-4205 | A successful auto-set returns the index where a later find succeeds and changes at most that slot; a failure is no-space and changes nothing. |
| L2bEtherTypes.NoSpaceExactly | airoha/files/drivers/net/ethernet/airoha/arht_ppe.c:4157-4205 | No space exactly when no enabled slot holds the pair and every disabled slot has an ether type other than zero. |
| L2bEtherTypes.AutoSetKeepsNoDuplicates | airoha/files/drivers/net/ethernet/airoha/arht_ppe.c:4157-4205 | Auto-set never creates a second enabled slot with the same ether type and PPPoE flag. |
| L2bEtherTypes.FindIsLeast | airoha/files/drivers/net/ethernet/airoha/arht_ppe.c:4035-4062 | The lookup names the first slot that is enabled with the pair. |
| L2bEtherTypes.PpeRegs.GetEtherType | airoha/files/drivers/net/ethernet/airoha/arht_ppe.c:3972-3993 | Reading a half-word returns the slot's ether type. |
| L2bEtherTypes.PpeRegs.FindIndex | airoha/files/drivers/net/ethernet/airoha/arht_ppe.c:4035-4062 | The loop over the packed registers returns the abstract table's first match, or -ENOENT. |
| L2bEtherTypes.PpeRegs.FindFreeIndex | airoha/files/drivers/net/ethernet/airoha/arht_ppe.c:4064-4093 | The loop returns the first slot that is disabled and zero, or -ENOSPC. |
| L2bEtherTypes.PpeRegs.SetEtherType | airoha/files/drivers/net/ethernet/airoha/arht_ppe.c:4095-4155 | The packed registers change in enable bit index, PPPoE bit index + 16 and one half of word index / 2 only, so exactly one slot of the table changes; bank 1 stays equal to bank 0 on AN7581. |
| L2bEtherTypes.PpeRegs.SetAuto | airoha/files/drivers/net/ethernet/airoha/arht_ppe.c:4157-4205 | The registers refine the abstract auto-set, with its index and its existed flag. |
| L2bEtherTypes.PpeRegs.ClearAuto | airoha/files/drivers/net/ethernet/airoha/arht_ppe.c:4207-4234 | The registers refine the abstract clear by value. |
| Loopback.FailureRollsBack | airoha/files/drivers/net/ethernet/airoha/arht_loopback.c:347-403 | For any list of pairs, whichever fails, every free slot ends zeroed and every other slot as it was: the table means what it meant, and is what it was exactly when no free slot carried a stale PPPoE flag. |
| Loopback.AllOrNothing | airoha/files/drivers/net/ethernet/airoha/arht_loopback.c:347-403 | Enable ends with 0x0800, 0x86dd, and 0x0021 and 0x0057 behind PPPoE on the table and every enabled slot untouched, or with -ENOSPC and the table as before, bit for bit exactly when no free slot carried a stale PPPoE flag. |
| Loopback.OnEmptyTable | airoha/files/drivers/net/ethernet/airoha/arht_loopback.c:347-378 | On a table with no slot in use, slots 0 to 3 receive 0x0800, 0x86dd, and 0x0021 and 0x0057 with the PPPoE flag, and no other slot changes. |
| Loopback.SucceedsExactly | airoha/files/drivers/net/ethernet/airoha/arht_loopback.c:347-403 | Enable succeeds exactly when there is a free slot for every pair that is missing. |
| Loopback.ClaimsExactly | airoha/files/drivers/net/ethernet/airoha/arht_loopback.c:347-378 | A successful enable claims exactly the first free slots, one for each missing pair. |
| Loopback.EnableThenDisable | airoha/files/drivers/net/ethernet/airoha/arht_loopback.c:347-436 | Enable then disable is the identity on what a lookup sees, and on the registers exactly when none of the first free slots, one for each missing pair, carried a stale PPPoE flag. |
| Loopback.StaleFlagIsLost | airoha/files/drivers/net/ethernet/airoha/arht_loopback.c:347-436 | A table that enable and disable do not give back. |
| Loopback.StaleFlagIsLostOnFailure | airoha/files/drivers/net/ethernet/airoha/arht_loopback.c:379-403 | A table that a failed enable does not give back. |
| Loopback.WriteDecides | airoha/files/drivers/net/ethernet/airoha/arht_loopback.c:478-488 | Writing what the switch is does nothing, zero leaves it off, and one turns it on exactly when each missing pair has a free slot. |
| Loopback.RunsKeepTheTable | airoha/files/drivers/net/ethernet/airoha/arht_loopback.c:478-488 | From every reachable state, over every run of proc writes, slots that were enabled first stay, the table is as before whenever the switch is off, and the four ether types are on it whenever it is on. |
| Loopback.RunsFromStart | airoha/files/drivers/net/ethernet/airoha/arht_loopback.c:478-488 | The same for every table and every run of writes from the driver's start. |
| Loopback.MacSwap.Enable | airoha/files/drivers/net/ethernet/airoha/arht_loopback.c:347-403 | The steps with their rollback refine the abstract installation and keep the banks equal; the switch is on exactly on success, and then the four ether types are on the table; with no device, -ENODEV and nothing changes. |
| Loopback.MacSwap.Disable | airoha/files/drivers/net/ethernet/airoha/arht_loopback.c:411-436 | Clears by value each pair whose index was saved and forgets the indices. |
| Loopback.MacSwap.WriteProc | airoha/files/drivers/net/ethernet/airoha/arht_loopback.c:478-488 | Acts only on a change of the switch. |
| ShrinkTable.LinesDecode | airoha/files/drivers/net/ethernet/airoha/arht_ppe.c:638-669 | Every key kind can be read back from the lines it was written to, the IPv6 row permutation included. |
| ShrinkTable.LinesAre | airoha/files/drivers/net/ethernet/airoha/arht_ppe.c:638-669 | The lines word by word: a MAC's last four bytes before its first two, the words of an IPv6 key back to front in each half, an IPv4 key as it is. |
| ShrinkTable.SweepSafety | airoha/files/drivers/net/ethernet/airoha/arht_ppe.c:671-723 | With 32-bit bitmap words the sweep invalidates a cell exactly when it is unpinned, expired and no in-range recorded user is bound, and forgets exactly the in-range unbound users. |
| ShrinkTable.SweepSafetyExactly | airoha/files/drivers/net/ethernet/airoha/arht_ppe.c:689-706 | For either word size: which bound users protect a cell. |
| ShrinkTable.SweepMissesBoundUser | airoha/files/drivers/net/ethernet/airoha/arht_ppe.c:689-706 | With 64-bit words a cell whose only user is bound can be invalidated. |
| ShrinkTable.LookupFinds | airoha/files/drivers/net/ethernet/airoha/arht_ppe.c:725-816 | A returned index names a cell that, after the closing sweep, holds the key in software and hardware and is unique; it is still valid exactly when pinned, fresh, or kept by a bound user. |
| ShrinkTable.LookupChooses | airoha/files/drivers/net/ethernet/airoha/arht_ppe.c:745-785 | The slot chosen is the lowest that holds the key, and where there is none the lowest that is not valid or has expired; every other cell keeps its key, users, stamp and pin, and other kinds are untouched. |
| ShrinkTable.LookupRecords | airoha/files/drivers/net/ethernet/airoha/arht_ppe.c:800-816 | A lookup that returns an index stamps its cell and adds the user to it, if in range and not zero, and no other user there or anywhere else; the closing sweep forgets that user only from an expired cell and if it is unbound. |
| ShrinkTable.LookupFullExactly | airoha/files/drivers/net/ethernet/airoha/arht_ppe.c:725-816 | -1 exactly when all sixteen cells hold other keys and each is pinned or unexpired; nothing changes then. |
| ShrinkTable.PinnedSurvives | airoha/files/drivers/net/ethernet/airoha/arht_ppe.c:671-816 | A lookup and its sweep leave a pinned cell valid with its key. |
| ShrinkTable.LookupIgnoresUsers | airoha/files/drivers/net/ethernet/airoha/arht_ppe.c:725-816 | A valid cell survives a lookup with its key exactly when it was not expired as the scan passed it, or the scan stopped at a slot holding the key before; users have no say. |
| ShrinkTable.LookupDropsBoundUser | airoha/files/drivers/net/ethernet/airoha/arht_ppe.c:766-785 | A cell whose only user is bound, and which the sweep would keep, is taken over by a lookup. |
| ShrinkTable.RunsKeepInv | airoha/files/drivers/net/ethernet/airoha/arht_ppe.c:1599-1607 | Over every run of lookups, sweeps and pins from the zeroed table: pinned implies valid, hardware holds every valid key, no tunnel key is held twice, and no source MAC either unless one was pinned while another slot held it. |
| ShrinkTable.PinKeepsUniqueExactly | airoha/files/drivers/net/ethernet/airoha/arht_ppe.c:436-447 | Pinning keeps source MACs unique exactly when no other slot holds the key, and keeps the rest of the invariant in any case. |
| ShrinkTable.PinnedStays | airoha/files/drivers/net/ethernet/airoha/arht_ppe.c:436-447 | Over every such run a pinned key stays valid and unchanged, in software and hardware, until its own slot is pinned again. |
| ShrinkTable.Ppe.SetShrinkField | airoha/files/drivers/net/ethernet/airoha/arht_ppe.c:638-669 | The line loop leaves the key in its lines and touches no others. |
| ShrinkTable.Ppe.ScanUsers | airoha/files/drivers/net/ethernet/airoha/arht_ppe.c:689-706 | The word-by-word bitmap scan clears exactly the tested unbound users and reports whether a tested one is bound. |
| ShrinkTable.Ppe.Reuse | airoha/files/drivers/net/ethernet/airoha/arht_ppe.c:671-723 | The nested loops sweep every cell once. |
| ShrinkTable.Ppe.FindAndUpdate | airoha/files/drivers/net/ethernet/airoha/arht_ppe.c:725-816 | Loop, insert, touch and sweep refine the abstract lookup followed by the abstract sweep. |
| ShrinkTable.Ppe.InitUpdMem | airoha/files/drivers/net/ethernet/airoha/arht_ppe.c:3653-3670 | The PON address is in hardware and pinned in software afterwards. |
| TxRing.RoomLeavesOne | airoha/files/drivers/net/ethernet/airoha/arht_dp_api.c:1552-1563 | The room test holds exactly when the free list has more entries than fragments, so its head is never missing. |
| TxRing.CommitMeans | airoha/files/drivers/net/ethernet/airoha/arht_dp_api.c:1094-1142 | A commit on a running queue stops it exactly when some packet of fewer than free_thr fragments would no longer find room, and on the fast path never; CPU_IDX is the new free head when it is written; each entry taken remembers its mapping and the first one the packet. |
| TxRing.RefusalMeans | airoha/files/drivers/net/ethernet/airoha/arht_dp_api.c:1081-1086 | A full ring stops the queue, or on the fast path drops the packet; nothing else changes. |
| TxRing.FailureMeans | airoha/files/drivers/net/ethernet/airoha/arht_dp_api.c:1146-1161 | A packet that cannot be mapped is counted as dropped, its entries forget their addresses, and the queue is neither stopped nor told. |
| TxRing.TransmitConserves | airoha/files/drivers/net/ethernet/airoha/arht_dp_api.c:1552-1634 | Free plus queued is the ring size on every path, and the free list stays distinct, in range and non-empty. |
| TxRing.FailureKeepsEntries | airoha/files/drivers/net/ethernet/airoha/arht_dp_api.c:1619-1627 | A mapping failure returns the same set of entries with queued unchanged; their order is unchanged exactly when the first fragment failed. |
| TxRing.FailureUnmapsWhatItMapped | airoha/files/drivers/net/ethernet/airoha/arht_dp_api.c:1619-1627 | The error path unmaps in order the addresses it mapped, with the same lengths exactly when every length fits 16 bits. |
| TxRing.LongFragmentNotUndone | airoha/files/drivers/net/ethernet/airoha/arht_dp_api.c:1576-1579 | A fragment of 65536 bytes is unmapped with length 0. |
| TxRing.PacketIsChained | airoha/files/drivers/net/ethernet/airoha/arht_dp_api.c:1565-1610 | A packet starts where the chain stood, NEXT_ID leads through its fragments with MORE on all but the last, and CPU_IDX is the first free entry. |
| TxRing.TxKeepsInv | airoha/files/drivers/net/ethernet/airoha/arht_dp_api.c:1552-1613 | A committed or refused packet keeps the chain, the partition of entries and the order. |
| TxRing.CompleteKeepsInv | airoha/patches-6.12/108-v6.19-net-airoha-Add-the-capability-to-consume-out-of-orde.patch:28-36 | A completion, in any order, that appends the entry to the free list keeps them too. |
| TxRing.FailureKeepsChainExactly | airoha/files/drivers/net/ethernet/airoha/arht_dp_api.c:1619-1627 | A transmit that fails at fragment f keeps the chain exactly when f is zero. |
| TxRing.CommitNeedsPlace | airoha/files/drivers/net/ethernet/airoha/arht_dp_api.c:1565-1627 | From a free list that failures turned by o in all, committing a packet leaves a chain exactly when o is a whole number of turns. |
| TxRing.DroppedPacketIsFetched | airoha/files/drivers/net/ethernet/airoha/arht_dp_api.c:1619-1627 | After a failure at a later fragment the hardware's next fetch is the dropped packet's first descriptor. |
| TxRing.DroppedPacketOnRingOfFour | airoha/files/drivers/net/ethernet/airoha/arht_dp_api.c:1565-1627 | A concrete ring on which the dropped packet is fetched. |
| TxRing.EntryFreedTwice | airoha/patches-6.12/108-v6.19-net-airoha-Add-the-capability-to-consume-out-of-orde.patch:28-36 | On that ring the completion of the wrongly fetched entry puts it on the free list a second time. |
| TxRing.HardwareSeesSubmissionOrder | airoha/files/drivers/net/ethernet/airoha/arht_dp_api.c:1552-1634 | Over every run in which each packet is committed with the failures before it adding up to whole turns of the free list, the hardware fetches exactly the submitted descriptors in order, and no entry is lost. |
| TxRing.StartIsChained | airoha/patches-6.12/108-v6.19-net-airoha-Add-the-capability-to-consume-out-of-orde.patch:53-67 | The freshly initialised queue satisfies the invariant. |
| TxRing.TxQueue.Transmit | airoha/files/drivers/net/ethernet/airoha/arht_dp_api.c:1081-1162 | The fragment loop and error path refine the transmit relation for all three functions; 0 is returned when there was room or the packet was dropped, 16 (busy) or -1 when the queue was full. |
| TxRing.TxQueue.MapFragments | airoha/files/drivers/net/ethernet/airoha/arht_dp_api.c:1094-1127 | The loop fills one entry per mapped fragment and stops at the first that cannot be mapped. |
| TxRing.TxQueue.GiveBack | airoha/files/drivers/net/ethernet/airoha/arht_dp_api.c:1146-1154 | The error loop unmaps each taken entry and moves it to the tail. |
| LroRings.EntryIsValid | airoha/files/drivers/net/ethernet/airoha/arht_ppe.c:3281-3306 | Zero exactly for a bound flow whose queue number stands for the ring; -1 exactly for no entry or another packet type. |
| LroRings.NbqTable | airoha/files/drivers/net/ethernet/airoha/arht_ppe.c:3281-3306 | Rings 12 to 15 stand for their own queue numbers and rings 16 to 19 for the same four. |
| LroRings.GrantIsSound | airoha/files/drivers/net/ethernet/airoha/arht_dp_api.c:3405-3439 | A granted ring is reserved for the asker and no other slot changes; it is the lowest ring that the asker holds or whose holder is not live, and where there is none the lowest that nobody holds. |
| LroRings.FallbackExactly | airoha/files/drivers/net/ethernet/airoha/arht_dp_api.c:3405-3439 | Ring 1 exactly when all eight rings are held, live, by other entries; nothing changes then. |
| LroRings.SingleHoldersExactly | airoha/files/drivers/net/ethernet/airoha/arht_dp_api.c:3409-3425 | An entry ends up with two rings exactly when a dead reservation stands in front of its own. |
| LroRings.DoubleReservation | airoha/files/drivers/net/ethernet/airoha/arht_dp_api.c:3409-3425 | A concrete table on which that happens. |
| LroRings.HolderIsLastAsker | airoha/files/drivers/net/ethernet/airoha/arht_dp_api.c:3405-3439 | Over every run a ring stays with the last entry it was granted to; rings are never set free. |
| LroRings.LiveHolderKeepsRing | airoha/files/drivers/net/ethernet/airoha/arht_dp_api.c:3405-3439 | Over every run a holder that every call finds live keeps its ring and nobody else is given it. |
| LroRings.Allocator.GetFreeRing | airoha/files/drivers/net/ethernet/airoha/arht_dp_api.c:3405-3439 | The two scans compute the abstract choice and update one slot. |
| RateLimit.SearchFindsLeastCover | airoha/files/drivers/net/ethernet/airoha/arht_qdma.c:60-91 | With no shift overflow, for every value above zero, the search ends at the least shift whose bucket holds it, or at the largest. |
| RateLimit.SearchIsMonotone | airoha/files/drivers/net/ethernet/airoha/arht_qdma.c:60-91 | A larger value never gets a smaller bucket. |
| RateLimit.CoveredExactly | airoha/files/drivers/net/ethernet/airoha/arht_qdma.c:60-91 | The bucket found holds the value exactly when the largest one would. |
| RateLimit.CopiesAgreeExactly | airoha/files/drivers/net/ethernet/airoha/arht_hsgmii.c:2895-2921 | The copy agrees with the original on every value except the unit, where it returns 1 instead of 0. |
| RateLimit.AcceptedSizesCovered | airoha/files/drivers/net/ethernet/airoha/arht_qdma.c:1158-1181 | Every accepted size is covered on byte meters; on packet meters exactly the sizes up to 2 MB, on the global one up to 32 MB. |
| RateLimit.BucketSteps | airoha/files/drivers/net/ethernet/airoha/arht_qdma.c:539-569 | The size chosen for a rate steps up behind 4000, 8000, 16,000, 128,000 and 256,000 and nowhere else; its six values. |
| RateLimit.RateToBucketIsMonotone | airoha/files/drivers/net/ethernet/airoha/arht_qdma.c:539-569 | On an ingress byte meter a larger rate never gets a smaller shift, and the bucket holds the size chosen. |
| RateLimit.FractionFits | airoha/files/drivers/net/ethernet/airoha/arht_qdma.c:1069-1076 | The fraction always fits six bits, so only the integer part can be refused. |
| RateLimit.RateWordIs | airoha/files/drivers/net/ethernet/airoha/arht_qdma.c:1068-1077 | The word written is the rate in 64ths of the unit rounded down, and is refused exactly from 2^18 units on. |
| RateLimit.RateRoundTrip | airoha/files/drivers/net/ethernet/airoha/arht_qdma.c:1069-1147 | Decoding never exceeds the rate, loses less than unit/64 and one, and is exact exactly when the unit divides 64 times the remainder. |
| RateLimit.ExactForEveryRate | airoha/files/drivers/net/ethernet/airoha/arht_qdma.c:1069-1147 | Every accepted rate survives exactly when the unit divides 64. |
| RateLimit.TokenUnitIs | airoha/files/drivers/net/ethernet/airoha/arht_qdma.c:1051-1061 | The unit is the most that, every tick, stays within a million packets a second or 8000 kbit. |
| RateLimit.UnitKeptExactly | airoha/files/drivers/net/ethernet/airoha/arht_qdma.c:1051-1061 | Keeping the unit in 16 bits loses nothing exactly for byte meters and for packet ticks of at least 16. |
| RateLimit.UnitIsCut | airoha/files/drivers/net/ethernet/airoha/arht_qdma.c:1051-1061 | At a tick of ten the packet unit of 100,000 is kept as 34,464. |
| RateLimit.UnitOfIs | airoha/files/drivers/net/ethernet/airoha/arht_qdma.c:1020-1066 | A meter has a unit exactly when the product of tick and ratio is above zero as a signed word and the quotient, kept in 16 bits, is not zero. |
| RateLimit.BucketForIs | airoha/files/drivers/net/ethernet/airoha/arht_qdma.c:1084-1099 | Outside ingress the bucket asked for is the least number of at least 4096 that exceeds the rate in units; an ingress packet meter asks for the rate itself. |
| RateLimit.BucketTooLargeExactly | airoha/files/drivers/net/ethernet/airoha/arht_qdma.c:1246-1258 | Only an ingress packet meter can ask for a bucket that is refused after the rate was written. |
| RateLimit.BucketIsRefused | airoha/files/drivers/net/ethernet/airoha/arht_qdma.c:1246-1258 | A concrete rate for which that happens. |
| RateLimit.IndexValidIs | airoha/files/drivers/net/ethernet/airoha/arht_qdma.c:502-537 | Which indices each module accepts; an ingress index in two-rate mode only if both slots of its pair are within the group's maximum. |
| RateLimit.Meter.SetValue | airoha/files/drivers/net/ethernet/airoha/arht_qdma.c:1277-1286 | Succeeds exactly when the unit and integer part are accepted, the bucket is at most 128 MB and both writes work; otherwise the bucket is unchanged and the rate is new exactly when its own write was accepted. |
| RateLimit.MeterIndex.SetModeValue | airoha/files/drivers/net/ethernet/airoha/arht_qdma.c:1260-1301 | An index out of range changes nothing; rate-limit mode sets one slot; two-rate mode sets both exactly when both can be set, the second only after the first. |
| RateLimit.Meter.GetTokenRate | airoha/files/drivers/net/ethernet/airoha/arht_qdma.c:1102-1148 | Reads the stored word's low 24 bits as 64ths of the unit, and so any stored rate to within the stated loss. |
| QosScheduler.SetThenGet | airoha/files/drivers/net/ethernet/airoha/arht_qdma.c:396-488 | After a completed set, get returns its mode and what each weight reads back as, zeros recovered through the closed-queue shadow. |
| QosScheduler.ReadBackTable | airoha/files/drivers/net/ethernet/airoha/arht_qdma.c:403-441 | A zero weight comes back as zero on the first 8, 0, 7, 6, 5, 4, 3, 2 queues of modes 0 to 7 and as one on the others; any other weight as its low eight bits. |
| QosScheduler.SetChanges | airoha/files/drivers/net/ethernet/airoha/arht_qdma.c:396-442 | A set, register by register: which close bits, which weights up to the first command not acknowledged, and which three mode bits change, and that nothing else does. |
| QosScheduler.RoundTripExactly | airoha/files/drivers/net/ethernet/airoha/arht_qdma.c:396-488 | Weights come back unchanged exactly when all fit eight bits and no strict-priority queue was given zero. |
| QosScheduler.OtherChannelsKeep | airoha/files/drivers/net/ethernet/airoha/arht_qdma.c:295-370 | A set, complete or timed out, leaves what every other channel reports. |
| QosScheduler.RetryExactly | airoha/files/drivers/net/ethernet/airoha/arht_qdma.c:431-441 | Repeating a timed-out set with the same record reports what was asked exactly when no weighted queue was to be closed. |
| QosScheduler.RunsKeepShadow | airoha/files/drivers/net/ethernet/airoha/arht_qdma.c:295-327 | Over every run the shadow equals the last word written to each close register. |
| QosScheduler.LastSetIsReported | airoha/files/drivers/net/ethernet/airoha/arht_qdma.c:396-488 | Over every run get returns the last completed set of a channel after any calls for other channels. |
| QosScheduler.Scheduler.CheckDone | airoha/files/drivers/net/ethernet/airoha/arht_qdma.c:277-293 | 0 exactly when the done bit shows in one of three reads, else -ETIME. |
| QosScheduler.Scheduler.SetTxQos | airoha/files/drivers/net/ethernet/airoha/arht_qdma.c:396-442 | The loops carry out the abstract set up to the first command that is not acknowledged and change the registers as SetChanges says; the caller's zeros become ones; bad arguments change nothing. |
| QosScheduler.Scheduler.GetTxQos | airoha/files/drivers/net/ethernet/airoha/arht_qdma.c:456-488 | Returns the channel's mode and weights, or the error. |
| PseReservation.ExcessKept | airoha/files/drivers/net/ethernet/airoha/arht_fe.c:1675-1696 | No call changes total minus reservations modulo 15 bits; a call that is carried out keeps it outright exactly when the old total less the old pages plus the new ones fits the register. |
| PseReservation.TotalWraps | airoha/files/drivers/net/ethernet/airoha/arht_fe.c:1693-1696 | An engine whose total is below what a queue holds, and whose total wraps when that queue is released. |
| PseReservation.OverflowSticks | airoha/files/drivers/net/ethernet/airoha/arht_fe.c:302-303 | The total is or-ed in uncut: bit 15 of its register is set after an update exactly when it was set before or the new total does not fit 15 bits, so that no update clears it. |
| PseReservation.RunsConserve | airoha/files/drivers/net/ethernet/airoha/arht_fe.c:1675-1741 | Over every run that difference is constant modulo 15 bits, equal to what it was exactly when the reservations made fit the register with it, and so always when their ceiling does. |
| PseReservation.OthersUntouched | airoha/files/drivers/net/ethernet/airoha/arht_fe.c:1725-1741 | Only the named queue changes; queues 0 to 5 of port 2 never do. |
| PseReservation.RunsLeaveOthers | airoha/files/drivers/net/ethernet/airoha/arht_fe.c:1725-1741 | The same over every run. |
| PseReservation.ThresholdsAre | airoha/files/drivers/net/ethernet/airoha/arht_fe.c:1698-1719 | The three thresholds, per chip, as numbers: what the limit leaves above the new total less 0x20 or 0x100, less 0x100 or 0x200, and three quarters of the second, each cut to 16 bits. |
| PseReservation.OrderedExactly | airoha/files/drivers/net/ethernet/airoha/arht_fe.c:1698-1719 | After an update low <= middle <= high and high plus total within the limit, exactly when the limit leaves the chip's middle margin above the total about to be written. |
| PseReservation.ThresholdsOutOfOrder | airoha/files/drivers/net/ethernet/airoha/arht_fe.c:1709-1718 | An engine on which, with a limit of one margin, the first reservation leaves the middle threshold at 0xff80 and the high one at 0x60. |
| PseReservation.FrameEngine.SetPerOqRsv | airoha/files/drivers/net/ethernet/airoha/arht_fe.c:1675-1723 | The indirect read, write and the unmasked read-modify-writes compute the abstract reservation; queues out of range change nothing. |
| PseReservation.FrameEngine.OqRsvEn | airoha/files/drivers/net/ethernet/airoha/arht_fe.c:1725-1741 | Queues 0 to 5 of port 2 and queues that do not exist change nothing; any other queue gets 0x80 pages or none and the total moves by the difference; the call refines the abstract step. |
| ChannelRetire.AllRoundsFailed | airoha/files/drivers/net/ethernet/airoha/arht_fe.c:1368-1386 | After nine rounds that ended at a bad poll the release condition cannot hold. |
| ChannelRetire.ReleasedMeans | airoha/files/drivers/net/ethernet/airoha/arht_fe.c:1368-1386 | A channel counts as released exactly when somewhere ten polls in a row find it released and not valid, with at most eight other polls before them. |
| ChannelRetire.FrameEngine.RetireOne | airoha/files/drivers/net/ethernet/airoha/arht_fe.c:1273-1390 | Success exactly when the polls show ten good ones in a row after at most eight bad ones; the release register ends at zero, no other register is touched. |
| ChannelRetire.FrameEngine.Retire | airoha/files/drivers/net/ethernet/airoha/arht_fe.c:1472-1531 | All three enables are zero at every access of every release, each channel is released twice in order, and the enables end as they began whatever the releases returned. |
| ChannelRetire.OnlyBit17 | airoha/files/drivers/net/ethernet/airoha/arht_fe.c:1203-1270 | The QDMA word written for a drain has bit 17 set and is unchanged in every other bit. |
| ChannelRetire.FrameEngine.Drop | airoha/files/drivers/net/ethernet/airoha/arht_fe.c:1203-1270 | At most 301 polls, all with GDM2 sending into its loop back, the dropping forward configuration and the QDMA bit set; all six registers end as they began, drained or not. |
| ChannelRetire.FrameEngine.RetireAll | airoha/files/drivers/net/ethernet/airoha/arht_fe.c:1543-1558 | Retiring GDM 1 or 2 commands channels 0 to n - 1 twice, drains nothing, and an ignored call does nothing; draining polls until no channel is busy or 301 times; on every path every register but the release register ends as it began, and the stop flag is up at every access and down at the end. |

## Left out

- Locks, interrupts and concurrent callers: every call runs to its end alone.
- Kernel services (buffers, conntrack, bridge tables, RCU, work queues, MDIO, regmap): parameters or absent.
- Return codes of hardware writes in the shrink table and of the reservation registers: writes succeed.
- Wrap-around of the jiffies counter: time stamps are integers.
- The real-time clock behind the mailbox timeouts can be set back; the model's clock only advances.
- What a paused state machine of the PHY does, and the log output.
- The mailbox waits inside `Uploader`: its methods record the messages; `ServedExactly` relates messages and waits.
- FirmwareUpload.Uploader.UpdateFlash: sizes from 2^31 on, which the kernel's firmware loader does not give out and whose signed offsets have no defined value in C; a read past the blob that faults.
- Loopback.MacSwap.Enable: the goto ladder is written as nested calls, with the same order of undo.
- ShrinkTable.Ppe.FindAndUpdate: the caller's struct with three keys is one key of the kind looked up.
- TxRing.TxQueue.Transmit: the choice of queue, the message words and the byte accounting of the network stack are parameters or absent; the list heads are a sequence.
- QosScheduler.Scheduler.SetTxQos: one QDMA; interleaved sets on both, which share one shadow array, are not modelled, and the weight of a command that is not acknowledged is taken as stored.
- PseReservation.FrameEngine.SetPerOqRsv: values fit the 14-bit field, as both callers' do.
- ChannelRetire: the EN7580 build, and the single-channel entry `fe_api_set_channel_retire_one`, which only wraps one release.
- RateLimit.MeterIndex.SetModeValue: queue rate limiters, whose units and register base the source never sets, and the ingress index maxima, which are parameters; each parameter write is one success flag.
- The rate limiter of the XSI MAC beyond its shift search: register writes.
- Proc and debug files, hook wrappers, stubs that return zero, LED and link handling, SoC presets: no behaviour to prove.
