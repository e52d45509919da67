# Swindle bootloader: verified model

A Dafny model of the two-stage bootloader: the USB DFU download path of stage 2, the boot decision of
stage 1, and the power-of-two ring buffer of the support library. `dafny verify dfyconfig.toml` checks all
of it.

## How it is organised

The firmware changes globals, registers and memory step by step, so each of its components is a class here,
and every method is proved against a function on values. The laws are then proved about those functions and
about whole runs of them.

- `Words`, `Flash`, `Commands`, `CommandRuns`: the flash as hardware (programming only clears bits, an erase
  sets the whole page that contains the address, 32-bit addresses wrap), the deferred DFU commands, and
  the laws of lists of commands. `FlashDriver` is the flash controller with its registers and key sequence,
  and the routines of flash.h that drive it.
- `DfuRequests`, `RequestLaws`, `DfuLayer`: the DFU class requests and the completion callback of dfu.cpp.
- `Control`, `Device`, `UsbDevice`: the control-transfer machine of usb.cpp. `Device.Step` is one bus event
  (bus reset, SETUP, OUT, IN taken) and the poll that serves it; `UsbDevice.UsbStack.Poll` does the same on
  endpoint registers (`EndpointRegister`), packet memory (`PacketMemory`), buffers and the flash controller,
  and is proved equal to `Device.Step`.
- `Monitor`, `Stages`, `Download`, `Deferred`, `Sessions`, `ReadBack`, `Leaving`, `SafeWrite`: laws of every run.
  `Monitor` keeps a record of the host's traffic, of which it takes only the packets and which transactions were
  acknowledged, and ties the device to it.
- `Service`: what a host is promised for every request, written by the numbers on the wire and independently of the
  handlers, and the law that the device keeps it. `Staying`: which traffic leaves the device in DFU mode.
- `Firmware`: start-up, and a download served by the running driver.
- `RingBuffer`: the FIFO, and its consumer interrupted by producers at every access to a shared index.
- `Crc`, `Stage1`: the checksum unit, the verdict, and the composition with the download.

## What holds, and where the code falls short

- From power-on, after a bus reset and any traffic without a DETACH and without a status query after a zero-length
  DNLOAD (`Staying.RunStays`), one session (set the address,
  send the blocks as 64-byte packets, poll after each) leaves the image in the flash, save an odd last byte; a
  consistent image for the application address is then started at the next reset. The session starts on a page
  boundary. Between each DNLOAD and its poll, and after the poll, the host may do anything that does not replace
  or cancel the command: bus resets, descriptor and status requests, broken-off transfers. The same is shown of
  the driver itself (`Firmware.ServeDownload`).
- Every request that fits its direction is answered, confirmed or stalled as promised, whatever came before
  (`Service.Serves`).
- An OUT packet that belongs to no open stage stalls both directions, but its completion flag is not cleared
  (`UsbDevice.UsbStack.Poll`), so the driver serves it again at every poll up to the next setup packet. That changes
  nothing, save that after a bus reset it stalls endpoint 0 once more; the next setup packet is served as if it had
  not (`Stages.StrayServedAgain`).
- A recorded command survives all traffic that does not replace or cancel it, broken-off polls included, and
  is executed exactly once (`Deferred.SurvivesAndExecutes`).
- The bootloader's 8 kB survive every run, for every address pointer, block number and length.
- The range test of the completion callback does its 32-bit addition without a carry: besides the user area
  it admits exactly the ranges that wrap past 2^32 (`Commands.AcceptsExactly`, with an example in
  `Commands.AcceptsWrapped`). Such a block write leaves the flash alone (`Commands.WrappedBlockWrite`).
- An erase command for an address in the user area clears the page of that address for every flash content if
  and only if the address starts the page and lies at least 4096 bytes before the end of the flash
  (`Commands.EraseClearsExactly`): the range test is applied to a whole transfer size, and the test for an
  erased page reads from the address, not from the start of its page.
- A block write stores its payload for every previous flash content if and only if its length is even and it
  starts on a page boundary, stays inside one page, or ends in the last page of the flash under a window that
  reaches past it, where reads return something else than 0xFF (`Commands.FaithfulExactly`): an odd last byte is
  not programmed, and from an unaligned start the loop can skip a dirty page or test the wrong window.
- A DFU read that the device handles keeps to the control buffer if and only if it is covered in the sense below
  (`Control.DfuFitsExactly`); CLRSTATUS sent as a read of 4097 bytes is one that does not.
- In a protected build the wipe hides what the user area held from every host if and only if no upload can reach
  that area (`SafeWrite.WipeHidesExactly`). Where one can, it still hides it from hosts that send DNLOAD data
  themselves (`SafeWrite.WipeHidesUserArea`); a DNLOAD in the wrong direction records what the last upload left
  (`SafeWrite.DirectionMatters`).
- The comment at src_stage2/dfu.cpp:204 says the device resets when the status read is complete. The main
  loop resets as soon as the request has been served, so that read never completes
  (`Leaving.LeavesBeforeReply`).
- The ring buffer's constructor asserts a power of two with `size == (size & ~(size - 1))`, which also lets
  0 pass (`RingBuffer.AssertionExactly`); such a buffer claims free space it does not have
  (`RingBuffer.ZeroSizeClaimsRoom`).
- Of the calls that drop no more than there is, `consume` may be interrupted by a producer between its two writes
  if and only if the dropped bytes do not run past the end of the buffer (`RingBuffer.ConsumeSafeExactly`); those
  of `get` never do.
- README.md of the repository describes an XOR checksum with the size at offset 0x20, a payload offset of
  0x1000 and a reboot marker in the last 8 bytes of RAM. The code takes the size and a CRC from the words at
  offsets 8 and 12 of the image at 0x08002000, and the marker from the first 8 bytes of RAM. The model
  follows the code.

## Assumptions

- Hardware: a transaction completes only on a VALID direction; SETUP is taken unless endpoint 0 is disabled;
  after SETUP or OUT reception is NAK, after SETUP or IN transmission is; a bus reset clears the endpoint
  registers but for the two CTR bits; nothing changes a register between a macro's read and its write; flash
  operations finish; a key written to an open flash controller jams it.
- At most one transaction completes between two polls, so that a SETUP never overtakes a completion that has not
  been served (src_stage2/usb.cpp:936-951).
- A run takes each transaction served once; the polls that serve a packet left flagged again are not steps of it.
- A read outside the flash returns one fixed byte; a write outside the flash, and an erase whose address register
  lies outside it, do nothing, so the model knows no alias of the flash at address 0. The flash size is a whole
  number of pages and at least 8 kB, and the five USB strings have at most 126 characters.
- `Control.Covered`: a request to an endpoint names one of the eight, and a device-to-host request whose
  handler sets no reply length asks for at most 4096 bytes, the size of the control buffer. Everything else
  the host may send is covered, malformed and short packets included.
- `SafeWrite.HostWrites` (only for `SafeWrite.WipeHidesUserArea`, which can fail without it): a DNLOAD with data is
  host-to-device.

## Model

| member | source | states |
|---|---|---|
| `Words.AndMask` | esprit_mini/include/lnRingBuffer.h:71-74 | masking with 2^k - 1 is the remainder modulo 2^k, for every k |
| `Words.Bytes32` | src_stage2/dfu.cpp:15-18 | the little-endian reader `read_u32` inverts the byte layout, for every 32-bit value |
| `Words.Le32Value` | src_stage2/dfu.cpp:15-18 | four bytes read as the sum of their place values, the last one heaviest |
| `Flash.EraseFromFrame` | src_stage2/dfu.cpp:282-284 | the conditional erase loop, from any address, changes nothing below the page of its first address or above the page of its last |
| `Flash.EraseFromAligned` | src_stage2/dfu.cpp:282-284 | from a page boundary the loop leaves every cell of every page in range at 0xFF, whatever it skipped |
| `Commands.AcceptsExactly` | src_stage2/dfu.cpp:278 | the range test admits exactly the ranges inside the user area and those that wrap past 2^32 |
| `Commands.AcceptsWrapped` | src_stage2/dfu.cpp:256 | a concrete range outside the flash that the test admits |
| `Commands.BlockWriteStores` | src_stage2/dfu.cpp:280-288 | on flash that can only clear bits, an accepted page-aligned block write is plain assignment of its even part |
| `Commands.BlockWriteFrame` | src_stage2/dfu.cpp:280-288 | an accepted block write changes no cell outside the pages its range meets |
| `Commands.WrappedBlockWrite` | src_stage2/dfu.cpp:278-288 | an admitted block write that wraps past 2^32 leaves the flash as it was, given that its stores at address 0 and above reach no flash cell |
| `Commands.EraseCommandExactly` | src_stage2/dfu.cpp:249-262 | an accepted aligned erase command clears its page and nothing else, an accepted unaligned one touches no other page, a refused one nothing |
| `Commands.EraseClearsExactly` | src_stage2/dfu.cpp:249-262 | for an address in the user area the page of the address is cleared for every flash content if and only if the address starts it and a whole transfer size fits behind |
| `Commands.UnalignedWriteFails` | src_stage2/dfu.cpp:280-288 | for every unaligned start whose even part reaches a second page, save where the window sees the end of the flash, there are flash contents and data for which that part does not arrive |
| `Commands.SeesEndErases` | src_stage2/flash.h:82-89 | where the test reads past the end of the flash, and something else than 0xFF there, the last page is always erased |
| `Commands.EvenFaithfulExactly` | src_stage2/dfu.cpp:276-289 | for every chip, the even part of the payload arrives for every flash content if and only if the write starts on a page boundary, that part stays in one page, or the window sees the end |
| `Commands.OddByteMisses` | src_stage2/flash.h:113-125 | for every odd length there are flash contents and data whose last byte does not arrive |
| `Commands.FaithfulExactly` | src_stage2/dfu.cpp:276-289 | for every chip, every byte of the payload arrives for every flash content if and only if the length is even and the write starts on a page boundary, stays in one page, or sees the end |
| `Commands.BlocksFollow` | src_stage2/dfu.cpp:275-276 | block 2 goes to the address pointer, and every block one transfer size behind the one before, modulo 2^32 |
| `Commands.OthersKeepFlash` | src_stage2/dfu.cpp:245-268 | a command that neither erases nor carries a block leaves flash and wipe flag alone |
| `Commands.PointerIsLastSet` | src_stage2/dfu.cpp:263-266 | over any list of commands the address pointer is what the last set-address command carries, whatever was erased, written or refused after it |
| `Commands.PointerStays` | src_stage2/dfu.cpp:245-289 | without such a command the pointer is what it was |
| `CommandRuns.ApplyKeepsBoot` | src_stage2/dfu.cpp:237-289 | no command, whatever its address, block number and length, wrapping or not, changes the bootloader |
| `CommandRuns.ApplyAllKeepsBoot` | src_stage2/dfu.cpp:237-289 | nor does any list of commands |
| `CommandRuns.WipeBlanksUserArea` | src_stage2/flash.h:182-186 | the wipe loop sets exactly the user area to 0xFF; skipping erased pages does not show |
| `CommandRuns.ApplyKeepsAlike` | src_stage2/flash.h:170-189 | in the protected build one command keeps targets alike that differ only in an unwiped user area, and a flash command makes them equal |
| `CommandRuns.BlockAddressAligned` | src_stage2/dfu.cpp:276 | block addresses from an aligned pointer are page-aligned for every block number, modulo 2^32 |
| `CommandRuns.PagesInWindow` | src_stage2/dfu.cpp:276-284 | a block's pages stay in its own 4096-byte window, for both page sizes and short blocks |
| `CommandRuns.BlockStaysInPages` | src_stage2/dfu.cpp:269-289 | a block, accepted or refused, from any pointer, changes only the pages it meets |
| `CommandRuns.BlocksFrame` | src_stage2/dfu.cpp:269-289 | a cell in no block's pages keeps what the first block found there, over any list of blocks |
| `CommandRuns.LastBlockWins` | src_stage2/dfu.cpp:269-289 | in any list of blocks, any order, with repeats, each window holds the last accepted payload of its block number, whatever was refused after it |
| `DfuRequests.DecodeEncode` | src_stage2/usb.h:164-171 | the packed setup structure reads back every field that was written |
| `DfuRequests.EncodeBytes` | src_stage2/usb.h:164-171 | the eight bytes of a setup packet, fields in order, 16-bit ones low byte first |
| `RequestLaws.StatusReportsState` | src_stage2/dfu.cpp:389-406 | the reported state is the state after the request, distinctly for each state; error byte and poll delay exactly when due; GETSTATE changes nothing |
| `RequestLaws.UploadReturnsFlash` | src_stage2/dfu.cpp:373-380 | an upload of a block inside the user area replies with exactly that part of the flash |
| `RequestLaws.DescriptorsDescribeThemselves` | src_stage2/usb.cpp:430-481 | a descriptor reply has the kind asked for and exactly the length it states |
| `RequestLaws.HaltReadsBack` | src_stage2/usb.cpp:313-357 | a halt set or cleared reads back as such, and no other endpoint direction changes |
| `Control.OverpromisesExactly` | src_stage2/usb.cpp:671-683 | when exactly a handled read promises more bytes than the control buffer holds, for every request to an existing endpoint |
| `Control.DfuFitsExactly` | src_stage2/dfu.cpp:317-410 | a handled DFU read keeps to the control buffer if and only if it is covered |
| `Control.ClearStatusOverpromises` | src_stage2/dfu.cpp:341-345 | a concrete request that does not |
| `Control.ReplyFits` | src_stage2/usb.cpp:671-683 | a handled covered read never promises more bytes than the control buffer holds |
| `Device.DispatchRelates` | src_stage2/usb.cpp:622-637 | no request handler disturbs the transfer in progress, and only a DNLOAD with data records a command, whose payload is the control buffer's |
| `Device.SetupKeepsInv` | src_stage2/usb.cpp:732-747 | a SETUP of any length, holding any covered request or cut short, in any state, keeps the invariant of the control machine |
| `Device.OutKeepsInv` | src_stage2/usb.cpp:757-796 | so does any OUT packet |
| `Device.InKeepsInv` | src_stage2/usb.cpp:806-832 | so does any completed IN transaction |
| `Device.StepKeepsGood` | src_stage2/usb.cpp:920-961 | so does every covered bus event |
| `Device.RunAppliesExecuted` | src_stage2/dfu.cpp:232-301 | over any run, flash, address pointer and wipe flag are the executed commands applied in order; nothing else reaches them |
| `Device.RunPointer` | src_stage2/dfu.cpp:232-301 | after any run the address pointer is that of the last executed set-address command, and the first one if there is none |
| `Device.BootloaderSurvives` | src_stage2/dfu.cpp:236-289 | over any run the first 8 kB of the flash do not change |
| `Monitor.RunAgrees` | src_stage2/usb.cpp:732-832 | after every run stage, request, received bytes, pending command and address of the device are those of the record, which is kept from packets and acknowledgements only |
| `Monitor.OutReassembly` | src_stage2/usb.cpp:406-419 | an OUT stage is open exactly when the record shows one; the control buffer is then the concatenation of the accepted packets; DATA_OUT misses more than one packet, LAST_DATA_OUT exactly one |
| `Monitor.DispatchedWhole` | src_stage2/usb.cpp:757-784 | an OUT request is dispatched once all its wLength bytes, at most 4096, are in the control buffer as sent, and the stage is then over; before that only the reassembly moves, and a packet shorter than due stalls |
| `Monitor.ExecutesOnPoll` | src_stage2/dfu.cpp:389-401 | a command is executed nowhere but at the acknowledged end of a status query |
| `Monitor.AtMostOnce` | src_stage2/dfu.cpp:232-301 | every executed command is one of the completed DNLOADs with exactly the bytes the host sent for it, in order, none twice; DNLOADs in the wrong direction are accounted for by number and length |
| `Monitor.AddressLatched` | src_stage2/usb.cpp:495-503 | the device address is that of the last SET_ADDRESS whose status stage was acknowledged on the bus since the last bus reset; refused, stalled and broken-off requests have none |
| `Monitor.PowerOn` | src_stage2/dfu.cpp:44-78 | the start-up state satisfies the invariants of every run |
| `Stages.TransfersStayArmed` | src_stage2/usb.cpp:671-832 | from the first SETUP after a reset to the next reset, the direction the open stage waits for is armed in every state |
| `Stages.SendChunkCuts` | src_stage2/usb.cpp:376-395 | the packets of an IN stage are the reference cutting of the reply: full packets, the rest, an empty packet if owed |
| `Stages.CutDelivers` | src_stage2/usb.cpp:651-661 | the reference cutting loses no byte, fills all packets but the last, and ends short exactly when the reply is shorter than asked for or does not fill its last packet |
| `Stages.ReadIsCut` | src_stage2/usb.cpp:671-696 | a handled read sends the first min(n, wLength) bytes of its n-byte reply, cut that way |
| `Stages.StageRuns` | src_stage2/usb.cpp:806-816 | on the bus: after k packets have been taken packet k of the stage is armed, and after the last the device waits for the status packet with reception armed |
| `Stages.StrayPacketsStall` | src_stage2/usb.cpp:757-832 | a packet that belongs to no open stage stalls both directions and changes nothing else |
| `Stages.StrayServedAgain` | src_stage2/usb.cpp:757-796 | serving such a packet again changes nothing; after a bus reset it stalls endpoint 0 until a setup packet, which is served as if it had not |
| `Stages.BadSetupsStall` | src_stage2/usb.cpp:705-747 | a setup packet that is cut short or announces more than the control buffer holds is refused |
| `Stages.StatusPacketEnds` | src_stage2/usb.cpp:785-792 | the status packet of a read ends the transfer, with reception armed again |
| `Stages.ResetRestarts` | src_stage2/usb.cpp:924-934 | a bus reset arms endpoint 0, takes address 0, turns the other endpoints off and keeps the transfer variables |
| `Service.DispatchLeft` | src_stage2/usb.cpp:430-637 | every request that fits its direction is handled as promised: refusal, reply bytes, next DFU state, other endpoints |
| `Service.Serves` | src_stage2/usb.cpp:622-696 | its setup packet, in any ready state, is met with exactly the promised first reply packet, confirmation or stall; flash, address and recorded command stay |
| `Service.ConfirmationTaken` | src_stage2/usb.cpp:817-828 | once the confirmation is taken the transfer is over, and only SET_ADDRESS moves the address |
| `Service.AddressServed` | src_stage2/usb.cpp:495-503 | SET_ADDRESS, as its eight bytes, is confirmed for every address below 128 and in force after the confirmation, not before; any other is stalled and changes nothing |
| `Staying.RunStays` | src_stage2/dfu.cpp:195-213 | any traffic without a DETACH, and without a status query while a zero-length DNLOAD stands, leaves the device in DFU mode and ready for a transfer |
| `SafeWrite.DispatchAlike` | src_stage2/usb.cpp:622-637 | what a request leaves, but for its reply bytes, depends neither on the flash nor on the old control buffer, save for DNLOAD data |
| `SafeWrite.WipeHidesUserArea` | src_stage2/flash.h:170-189 | in every protected build two devices with the same host events, no DNLOAD data in the wrong direction among them, and flashes that differ in the user area only execute the same commands, and their targets are equal once a flash command was executed |
| `SafeWrite.AnswersHideUserArea` | src_stage2/flash.h:170-189 | where no upload reaches the user area they also stay in the same control state, replies included, whatever the host sends |
| `SafeWrite.DirectionMatters` | src_stage2/dfu.cpp:322-340 | with upload and a DNLOAD in the wrong direction they still differ after an executed block command |
| `SafeWrite.WipeHidesExactly` | src_stage2/flash.h:170-189 | in a protected build the targets of all such devices are equal once a flash command was executed, whatever the host sends, if and only if uploads are off or the user area is smaller than a transfer |
| `Download.DnloadRuns` | src_stage2/usb.cpp:705-784 | the packets of a DNLOAD record its block number and bytes, execute nothing and leave the flash alone, from any state ready for a transfer |
| `Download.GetStatusRuns` | src_stage2/dfu.cpp:389-401 | a completed GETSTATUS executes the pending command and nothing else, also after one that was broken off |
| `Deferred.ExactlyOnce` | src_stage2/dfu.cpp:195-301 | over every run without a request that replaces or cancels it, a pending command is still pending and nothing was executed, or it was executed once and nothing else was |
| `Deferred.SurvivesAndExecutes` | src_stage2/dfu.cpp:195-301 | such a run followed by a completed GETSTATUS executes exactly that command |
| `Deferred.DownloadExecutesOnce` | src_stage2/dfu.cpp:232-301 | after the packets of a DNLOAD, any such traffic and a completed GETSTATUS exactly the command the host sent was executed |
| `Sessions.WriteRuns` | src_stage2/dfu.cpp:232-301 | a DNLOAD and its poll, with harmless traffic between and after them, execute the block sent and nothing else |
| `Sessions.WriteAllRuns` | src_stage2/dfu.cpp:232-301 | the commands executed while blocks are sent with harmless traffic around them are exactly these blocks, in order, each once, with exactly their bytes |
| `Sessions.SessionRuns` | src_stage2/dfu.cpp:232-301 | a session executes the command that sets the address, then those of the blocks, and nothing else |
| `Sessions.ImageStored` | src_stage2/dfu.cpp:232-301 | after a session the flash holds the image, less an odd last byte, for every image and aligned range in the user area and any harmless traffic in between |
| `Sessions.RestUntouched` | src_stage2/dfu.cpp:280-288 | after a session every cell outside the image's pages is as the first block found it |
| `Sessions.EndToEnd` | src_stage2/dfu.cpp:478-518 | from power-on, after a reset and any traffic of packets that stays in DFU mode, one session stores the image and keeps the bootloader |
| `Sessions.PowerOnReady` | src_stage2/dfu.cpp:478-518 | from power-on, a bus reset and such traffic lead to a device ready for a session |
| `ReadBack.UploadSendsFlash` | src_stage2/dfu.cpp:366-388 | the packets of an upload, joined, are that part of the flash |
| `ReadBack.UploadReturnsImage` | src_stage2/dfu.cpp:353-388 | after a session an upload of any full block sends that block of the image |
| `Leaving.LeavesBeforeReply` | src_stage2/dfu.cpp:195-213 | the reset comes with the poll after a zero-length DNLOAD, before its reply is taken |
| `Leaving.DetachLeaves` | src_stage2/dfu.cpp:350-352 | a DETACH leaves with the poll that serves its setup packet, its confirmation still armed |
| `FlashDriver.FlashController.constructor` | src_stage2/flash.h:24-44 | the controller starts locked |
| `FlashDriver.FlashController.Unlock` | src_stage2/flash.h:46-58 | from locked and at rest the key sequence opens the controller |
| `FlashDriver.FlashController.Lock` | src_stage2/flash.h:60-63 | locks an open controller and changes no cell |
| `FlashDriver.FlashController.EraseAt` | src_stage2/flash.h:69-80 | erases the page of its address and leaves PER clear |
| `FlashDriver.FlashController.PageIsErased` | src_stage2/flash.h:82-89 | true if and only if all bytes of the window read 0xFF |
| `FlashDriver.FlashController.CheckDoErase` | src_stage2/flash.h:170-189 | wipes once, and only once |
| `FlashDriver.FlashController.ProgramBuffer16` | src_stage2/flash.h:91-100 | half-word by half-word it is one burst of programming |
| `FlashDriver.FlashController.ProgramBuffer32` | src_stage2/flash.h:101-111 | word by word likewise |
| `FlashDriver.FlashController.ProgramBuffer` | src_stage2/flash.h:113-125 | programs the even part and leaves PG clear |
| `FlashDriver.FlashController.ProgramBufferGd32` | src_stage2/flash.h:126-142 | for every address and length the same flash as the 16-bit path |
| `DfuLayer.DfuApp.GetStatus` | src_stage2/dfu.cpp:195-213 | state, status and poll delay of a status request |
| `DfuLayer.DfuApp.EraseRange` | src_stage2/dfu.cpp:282-284 | the page loop is the erase function the laws are about |
| `DfuLayer.DfuApp.WriteBlock` | src_stage2/dfu.cpp:269-290 | a busy data block has the effect of its command |
| `DfuLayer.DfuApp.GetStatusComplete` | src_stage2/dfu.cpp:232-301 | executes a busy command and nothing otherwise; finds the flash controller locked and leaves it locked |
| `DfuLayer.DfuApp.Download` | src_stage2/dfu.cpp:322-340 | the shadow copy takes the payload, cut to the buffer, over what was there |
| `DfuLayer.DfuApp.Upload` | src_stage2/dfu.cpp:353-388 | the reply and state of an upload, refusals included |
| `DfuLayer.DfuApp.ControlRequest` | src_stage2/dfu.cpp:317-410 | the handler on its globals is the request function the laws are about |
| `EndpointRegister.NextRefines` | src_stage2/usb.h:412-471 | each macro, and each hardware event, changes exactly its own fields of the toggle-on-write register |
| `EndpointRegister.RegisterRefines` | src_stage2/usb.h:356-471 | over any sequence of macros and hardware events the register is the record of its fields |
| `EndpointRegister.EndpointFile.Do` | src_stage2/usb.h:412-471 | one macro on one register changes that record and no other |
| `PacketMemory.CopyToPm` | src_stage2/usb.cpp:204-210 | the slots hold the packet, for every length and offset; no slot past the rounded length changes |
| `PacketMemory.CopyFromPm` | src_stage2/usb.cpp:219-230 | exactly the asked bytes arrive, odd lengths included, and nothing else changes |
| `PacketMemory.RoundTrip` | src_stage2/usb.cpp:204-230 | out and back gives the same bytes and touches nothing past the length on either side |
| `UsbDevice.UsbStack.constructor` | src_stage2/usb.cpp:105-148 | the initial values of all globals and registers |
| `UsbDevice.UsbStack.WritePacket` | src_stage2/usb.cpp:244-256 | arms the packet unless one is still armed |
| `UsbDevice.UsbStack.ReadPacket` | src_stage2/usb.cpp:269-283 | nothing while reception is armed; otherwise takes at most the asked bytes, acknowledges the packet and re-arms reception unless NAK is forced |
| `UsbDevice.UsbStack.StallSet` | src_stage2/usb.cpp:313-336 | the halt function of the laws, on the registers; ending a halt clears the data toggle |
| `UsbDevice.UsbStack.SendChunk` | src_stage2/usb.cpp:376-395 | one step of packet splitting, on the globals |
| `UsbDevice.UsbStack.RecvChunk` | src_stage2/usb.cpp:406-419 | one step of reassembly, success and stall |
| `UsbDevice.UsbStack.GetDescriptor` | src_stage2/usb.cpp:430-481 | descriptor replies built in place in the control buffer |
| `UsbDevice.UsbStack.DeviceRequest` | src_stage2/usb.cpp:491-532 | the device requests on globals and registers |
| `UsbDevice.UsbStack.InterfaceRequest` | src_stage2/usb.cpp:541-560 | the interface requests, the refused GET_STATUS included |
| `UsbDevice.UsbStack.EndpointRequest` | src_stage2/usb.cpp:569-587 | the endpoint requests; ending a halt clears the data toggle of that direction |
| `UsbDevice.UsbStack.StandardRequest` | src_stage2/usb.cpp:596-611 | standard requests by recipient |
| `UsbDevice.UsbStack.Dispatch` | src_stage2/usb.cpp:622-637 | DFU requests to the DFU layer, the rest to the standard handlers; the flash is not touched |
| `UsbDevice.UsbStack.SetupRead` | src_stage2/usb.cpp:671-696 | the setup stage of a read, with its stall path |
| `UsbDevice.UsbStack.SetupWrite` | src_stage2/usb.cpp:705-722 | the setup stage of a write, with the length check |
| `UsbDevice.UsbStack.ControlSetup` | src_stage2/usb.cpp:732-747 | a SETUP transaction of any length, on the globals |
| `UsbDevice.UsbStack.ControlOut` | src_stage2/usb.cpp:757-796 | an OUT transaction; the flash changes only at the end of a status stage with a busy command |
| `UsbDevice.UsbStack.ControlIn` | src_stage2/usb.cpp:806-832 | an IN transaction, the latching of the address included |
| `UsbDevice.UsbStack.BusReset` | src_stage2/usb.cpp:924-934 | a bus reset sets up the registers of endpoint 0 and address 0 and keeps the transfer variables |
| `UsbDevice.UsbStack.Poll` | src_stage2/usb.cpp:920-961 | one bus event and its poll, on registers, buffers and flash controller, is one step of the device the run laws are about, and acknowledges what it served: the completion flag is cleared for IN packets, setup packets and the OUT packets of an open stage, and for no others |
| `UsbDevice.UsbStack.PollAll` | src_stage2/dfu.cpp:500-517 | the main loop over any list of covered events is the run the laws are about, with the flash controller locked after it |
| `Firmware.Boot` | src_stage2/dfu.cpp:526-539 | start-up leaves the device every law starts from |
| `Firmware.ServeDownload` | src_stage2/dfu.cpp:478-518 | the driver from start-up: bus reset, any traffic of packets that stays in DFU mode and one session leave the image in the flash cells, all cells outside its pages as found or wiped, the bootloader as it was and the controller locked |
| `RingBuffer.AssertionExactly` | esprit_mini/include/lnRingBuffer.h:22 | the constructor's assertion holds exactly for the powers of two and 0 |
| `RingBuffer.SecondReadExact` | esprit_mini/include/lnRingBuffer.h:127-134 | reading the head twice is harmless: clipped to what was there, the difference is exact even if it wraps |
| `RingBuffer.WindowAppend` | esprit_mini/include/lnRingBuffer.h:154-186 | writing behind the occupied part, split at the wrap, extends the contents |
| `RingBuffer.WindowDrop` | esprit_mini/include/lnRingBuffer.h:116-120 | advancing the tail drops the oldest bytes |
| `RingBuffer.Ring.constructor` | esprit_mini/include/lnRingBuffer.h:19-27 | of the sizes the assertion admits, exactly those other than 0 give a working buffer, which is empty |
| `RingBuffer.ZeroSizeClaimsRoom` | esprit_mini/include/lnRingBuffer.h:80-83 | size 0 passes the assertion and then claims room for 2^32 - 1 bytes |
| `RingBuffer.Ring.Count` | esprit_mini/include/lnRingBuffer.h:71-74 | the number of bytes inside, with no index expression beyond 32 bits |
| `RingBuffer.Ring.Free` | esprit_mini/include/lnRingBuffer.h:80-83 | count and free add up to size - 1 |
| `RingBuffer.Ring.Empty` | esprit_mini/include/lnRingBuffer.h:52-55 | true if and only if there is nothing inside |
| `RingBuffer.Ring.Full` | esprit_mini/include/lnRingBuffer.h:62-65 | true if and only if size - 1 bytes are inside |
| `RingBuffer.Ring.Flush` | esprit_mini/include/lnRingBuffer.h:101-104 | drops everything |
| `RingBuffer.Ring.Put` | esprit_mini/include/lnRingBuffer.h:154-186 | appends exactly min(size, free) bytes, in order, even while a consumer is stopped inside consume |
| `RingBuffer.Ring.GetReadPointer` | esprit_mini/include/lnRingBuffer.h:127-134 | the zero-copy view is the contiguous front of the contents |
| `RingBuffer.Ring.Consume` | esprit_mini/include/lnRingBuffer.h:116-120 | drops exactly the n oldest bytes |
| `RingBuffer.Ring.Get` | esprit_mini/include/lnRingBuffer.h:194-225 | removes exactly min(size, count) bytes, oldest first, and writes nothing past them |
| `RingBuffer.Ring.ReadPointerInterrupted` | esprit_mini/include/lnRingBuffer.h:127-134 | right although whole puts run between its reads |
| `RingBuffer.ConsumeSafeExactly` | esprit_mini/include/lnRingBuffer.h:116-186 | for every consume that drops no more than there is: a put of any length, interrupting between its two writes, keeps to the free space if and only if the dropped bytes do not run past the end of the buffer |
| `RingBuffer.Ring.ConsumeInterrupted` | esprit_mini/include/lnRingBuffer.h:116-120 | for bytes up to the end of the buffer, right although whole puts run while the tail stands at size |
| `RingBuffer.Ring.GetInterrupted` | esprit_mini/include/lnRingBuffer.h:194-225 | with whole puts between any two accesses, get returns exactly the next bytes of the stream: none lost, doubled or overwritten |
| `Crc.ShiftUndone` | src_stage1/ch32_crc.c:40-43 | with an odd polynomial a shift of the CRC register can be undone |
| `Crc.FeedInjectiveWord` | src_stage1/ch32_crc.c:40-43 | feeding a word is injective in the word |
| `Crc.FeedInjectiveState` | src_stage1/ch32_crc.c:40-43 | and in the register |
| `Crc.OneWordChanged` | src_stage1/ch32_crc.c:28-45 | two images that differ in exactly one word have different checksums |
| `Crc.LowestBitGivesPolynomial` | src_stage1/ch32_crc.c:28-45 | words that differ in the lowest bit give registers that differ by the polynomial, at every register value |
| `Crc.CrcUnit.Compute` | src_stage1/ch32_crc.c:28-45 | the loop computes the fold of the words from the reset value |
| `Stage1.Bootloader.Decide` | src_stage1/main.cpp:113-175 | the accumulated reasons amount to the verdict predicate; the marker in the first eight bytes of RAM, or the pin low, always leads to stage 2 in RAM; the marker is always cleared; stage 2 is copied exactly when the application is not started |
| `Stage1.BitsInjective` | src_stage1/ch32_crc.c:37-43 | distinct words in flash are distinct to the CRC unit |
| `Stage1.BitsValue` | src_stage1/ch32_crc.c:37-43 | the word the CRC unit is fed has the value read from the flash |
| `Stage1.DamageDetected` | src_stage1/main.cpp:144-160 | exactly one changed word under the checksum of a hashed image that passes always leads to DFU mode |
| `Stage1.ChecksumWordChanged` | src_stage1/main.cpp:144-160 | the checksum word changed alone in a hashed image that is started leads to DFU mode, unless the header becomes the no-hash pair |
| `Stage1.InstalledVerdict` | src_stage1/main.cpp:113-169 | an installed image is started if and only if there is no marker, the pin is high, and it is consistent or declares itself unhashed |
| `Download.RunKeepsReady` | src_stage2/usb.cpp:732-832 | every run that starts with a bus reset, or with endpoint 0 enabled, and stays in DFU mode ends ready for a session |
| `Stage1.DownloadThenBoot` | src_stage1/main.cpp:113-169 | a consistent image sent in a session from any ready state is started at the next reset |

## Left out

- Clocks, PLL, GPIO, interrupts, LEDs, the re-enumeration pulse, start-up and linker code: register set-up without a law of its own.
- Busy-waits and delays: flash operations are taken as complete.
- The memory-layout string and the serial number with `xstrcpy`, `xstrcat` and `xstrlen`: they enter as arbitrary strings.
- Packet-memory placement, the receive-size encoding, data toggles as the host sees them, and traffic on endpoints other than 0.
- Option bytes, read-out protection and the pin-swap set-up: no part of the download path.
- The alias of the flash at address 0: a write there is taken to do nothing.
- Faults or programming errors of unaligned 16- or 32-bit accesses: such an access is taken to reach the bytes at its address.
- A `put` interrupted by a consumer: only the direction in which a producer interrupts a consumer is stated.
- Flash wear, aborted erases and power loss during a command.
- The restart after the system reset: a run of stage 2 ends in the manifest state, and stage 1 is modelled from there on its own.
- The jump itself in stage 1: the verdict is the value of the vector table register and the contents of RAM.
- `Commands.WrappedBlockWrite`: does not model the alias of the flash at address 0, where such a write continues.
- `Device.SetupKeepsInv`: is about covered requests; what the device sends when it reads past its control buffer is not modelled. `Control.OverpromisesExactly` says when that is.
- `Device.StepKeepsGood`: likewise, and with it every law of runs.
- `RingBuffer.Ring.ConsumeInterrupted`: takes bytes up to the end of the buffer, because beyond it an interrupted call is not safe (`RingBuffer.ConsumeSafeExactly`).
