# Verification of the SSC-IO card software

A Dafny model of the parts of the SSC-IO card that carry state from one step to the next, with proofs of
what those parts are for. The boot-flash stack, the JTAG UART driver, the alarms, the file descriptors,
the clock time and the log of the soft processor come from its board support package; the word hand-off
comes from the CNC driver of the host; the encoder counter comes from the card's logic.

`dafny verify dfyconfig.toml` checks everything.

## The parts

**The serial flash: `SpiMaster`, `EpcsChip`, `EpcsCommands`, `EpcsFlash`.** Three layers of driver on a
model of the chip. `SpiMaster.Core` has the registers of the SPI core and a slave of any kind; after every
byte its ready flags come after arbitrary finite numbers of status reads, and the transfer loop is proved
to end and to be the plain byte-by-byte transfer. `EpcsChip` is the chip: it takes a frame per chip-select
and acts on release. Erase sets a block to 0xFF, program clears bits and wraps inside a page, and both
need the write-enable latch, use it up, and are ignored while a job is in progress, as is every command
with the wrong number of address bytes. An address past the end of the memory wraps around. Changing the address mode needs the latch and uses it up. A job
lasts for an arbitrary finite number of status reads. That the commands have their effect on such a chip
is what shows that write enable, waiting and address modes are in order. The main result is the exact
memory after a write, for every offset and length (`EpcsFlash.Flash.Write`), and what that memory means
(`ReadBack`, `StoredInFull`, `Survives`, `WriteTwice`).

**The JTAG UART: `Ring`, `JtagUart`.** The fast driver. The foreground routines let any number of
interrupts come in between any two accesses to shared state, and also between the bytes of a copy; and so
may a reader during a write and a writer during a read, since the two take different locks.
`JtagUart.Uart.Valid` is the invariant of every reachable state: bytes sent and bytes in the transmit ring
are the bytes accepted, bytes returned and bytes in the receive ring are the bytes popped, waiting output
has its interrupt on or a writer about to turn it on, and the read interrupt is off only with the ring
full or a reader about to turn it on. Of the device it is assumed that an interrupt is pending only when
enabled and when its FIFO has data or room, that RVALID is set if there is data and RAVAIL zero if it is
not, and that it loses no byte written within the space it reported. The host sends and takes bytes
at any time.

**The CNC hand-off: `CncCard`, `CncDriver`.** `CncCard` is a machine in which each step is one access of
the write call or of the interrupt handler to shared state; the two may run on two processors and share
no lock. Waiting for the mutex is given up only while a signal is pending, and the words of the user that can
be read are a parameter. `CncDriver` has the routines themselves, with everything else taking any number of steps between
two accesses, and shows that they only take steps of the machine. The hand-off is *not* safe in every run:
the handler wakes the writer after it has cleared the level (drv/src/cnc_card.c:309-310), and a wake-up
that is overtaken by a write call that fills the buffer and by another that goes to sleep lets that writer
go on with a full buffer, because the level is not looked at again after the sleep
(drv/src/cnc_card.c:270-286). If the next interrupt then comes between its reading and its storing of the
level, the buffer is sent twice (`SomeRunBreaks`). `WakeSafeIff` says exactly when a wake-up is harmless, `SafeRuns` that
all runs without a late one are safe, `PromptRunsAreSafe` that there is no late one where the handler is
not overtaken between the two accesses, as on one processor, and `LateWakeHappens` that late ones do
happen for every size of the buffer.

**The alarms: `AlarmTime`, `Alarms`.** The deadlines modulo 2^32 with their roll-over flag, and the
intrusive, circular, doubly linked list that a tick walks while alarms leave it. The links are fields of
heap objects. A callback is an arbitrary function from how often it has been called to its answer. The
calls made in any run of ticks are proved to be those of a schedule that knows no counter. One interval
is an exception: 2^32 - 1 ticks, for which the alarm expires at once unless the counter is about to wrap.
Starting an alarm that is still on the list ruins the list.

**The encoder: `EncodePd`.** The registers, all of which take their next values at a clock edge, over any
trace of inputs.

**The descriptors: `FdPool`.** The pool with its high-water mark, and the calls on it: open, close, the
exclusive requests of ioctl, redirection. The answers of the open, close and ioctl functions of a device
are parameters. A comment in the source promises the lock to a descriptor that is the only one of its
device (alt_fd_lock.c); the scan stops below the mark, so that it may also go to one of two.
`GrantedToSoleIff` gives the condition, `GrantedToShared` a run. What an exclusive flag is for holds
regardless: no device has two holders, and a held device is not opened again.

**The time of day: `TimeOfDay`.** Setting multiplies in 32 bits and reading in 64. The source promises
that a time that was set is read back at once (alt_settod.c); `AtOnceIff` gives the exact condition on the
ticks at the time of setting, at any tick rate, and `AtOnceFails` ticks for which the promise is not kept.
`SetThenGetIff` is about later readings, and `SecondIff` about the tick rates at which the clock keeps time.

**The log: `LogPrintf`.** The stripped-down printf: the integer fields, and the state machine that reads
the format.

`Machine` has the integer types that the others share.

Numbers of error codes are those of newlib and, for the CNC driver, of Linux.

## Model

| member | source | states |
|---|---|---|
| `SpiMaster.Core.AwaitReady` | qsys/software/ssc-io_bsp/drivers/src/altera_avalon_spi.c:82-87 | For any schedule of the ready flags the polling ends; with the one credit spent only the answer to the outstanding byte ends it, and with the credit in hand only the permission to write does |
| `SpiMaster.Core.ClockBytes` | qsys/software/ssc-io_bsp/drivers/src/altera_avalon_spi.c:79-118 | With at most one byte outstanding, clocks out exactly the write data followed by zeros and keeps exactly the last answers; it ends for every schedule, and the branch that sets the credits to -1024 is unreachable |
| `SpiMaster.Core.Command` | qsys/software/ssc-io_bsp/drivers/src/altera_avalon_spi.c:41-134 | A whole transfer equals shifting the bytes into the slave one after the other; the slave is released exactly when its frame was forced and the merge flag is clear |
| `SpiMaster.TrackedTransfer` | qsys/software/ssc-io_bsp/drivers/src/altera_avalon_spi.c:46-57 | The byte-by-byte meaning of a transfer for any slave whose state after each prefix of the bytes is known |
| `SpiMaster.RecordedTransfer` | qsys/software/ssc-io_bsp/drivers/src/altera_avalon_spi.c:79-118 | What the slave receives is the written bytes and zeros, each once and in order, and each answer is given before its byte is known |
| `EpcsCommands.AddressRoundTrip` | qsys/software/ssc-io_bsp/drivers/src/epcs_commands.c:70-87 | The shifted address bytes of a command are the big-endian encoding of the offset, and the chip decodes the same offset from them, with three bytes and with four |
| `EpcsCommands.AddressCut` | qsys/software/ssc-io_bsp/drivers/src/epcs_commands.c:70-87 | Of any offset, however large, the chip decodes the low three or four bytes |
| `EpcsChip.DecodeEncode` | qsys/software/ssc-io_bsp/drivers/src/epcs_commands.c:70-87 | Decoding the encoded low bytes of a number gives the number back if it fits |
| `EpcsCommands.OneFrame` | qsys/software/ssc-io_bsp/drivers/src/altera_avalon_spi.c:64-69 | A transfer with the select line held is one frame: the chip acts on all of it, and on it only |
| `EpcsCommands.ProgramFrame` | qsys/software/ssc-io_bsp/drivers/src/epcs_commands.c:218-238 | The program header and the data, sent as two transfers joined by the merge flag, reach the chip as one frame and program exactly the data at the encoded address |
| `EpcsCommands.ReadFrame` | qsys/software/ssc-io_bsp/drivers/src/epcs_commands.c:135-145 | A read command answers with the memory from the offset on and leaves the chip as it was |
| `EpcsCommands.AwaitWipReleased` | qsys/software/ssc-io_bsp/drivers/src/epcs_commands.c:52-63 | However long a job takes, the wait ends, and then the chip is not busy and otherwise the same |
| `EpcsCommands.WriteEnable` | qsys/software/ssc-io_bsp/drivers/src/epcs_commands.c:155-167 | Sets the write-enable latch of a chip that is not busy, and changes nothing else |
| `EpcsCommands.EnterFourByteMode` | qsys/software/ssc-io_bsp/drivers/src/epcs_commands.c:293-311 | The chip is in four-byte mode afterwards, with the latch spent |
| `EpcsCommands.ExitFourByteMode` | qsys/software/ssc-io_bsp/drivers/src/epcs_commands.c:313-331 | The chip is in three-byte mode afterwards, with the latch spent |
| `EpcsCommands.SectorErase` | qsys/software/ssc-io_bsp/drivers/src/epcs_commands.c:65-108 | Exactly the block of the offset becomes 0xFF; the chip takes the erase although it ignores one without write enable, while busy or with the wrong address length, and it is idle and in three-byte mode afterwards |
| `EpcsCommands.ReadBuffer` | qsys/software/ssc-io_bsp/drivers/src/epcs_commands.c:110-153 | Returns the memory from the offset on, running on past the end to the beginning, and leaves memory and address mode as they were |
| `EpcsCommands.WriteBuffer` | qsys/software/ssc-io_bsp/drivers/src/epcs_commands.c:190-254 | Programs the data at the place that the offset means by clearing bits within its page, and leaves the chip idle and in three-byte mode |
| `EpcsCommands.ReadElectronicSignature` | qsys/software/ssc-io_bsp/drivers/src/epcs_commands.c:257-273 | Returns the signature and leaves the chip as it was |
| `EpcsCommands.ReadDeviceId` | qsys/software/ssc-io_bsp/drivers/src/epcs_commands.c:275-291 | Returns the three id bytes as one number and leaves the chip as it was |
| `EpcsFlash.CatalogueDensity` | qsys/software/ssc-io_bsp/drivers/src/altera_avalon_epcs_flash_controller.c:80-188 | Which signatures and ids are known; the size is two to the signature plus one, or two to the last byte of the id, and blocks are of 64 kilobytes but for the EPCS1 and the EPCS128 |
| `EpcsFlash.CatalogueSound` | qsys/software/ssc-io_bsp/drivers/src/altera_avalon_epcs_flash_controller.c:80-188 | Every known device is made of whole blocks of whole pages, and is in four-byte mode exactly if three address bytes do not reach all of it |
| `EpcsFlash.Flash.Query` | qsys/software/ssc-io_bsp/drivers/src/altera_avalon_epcs_flash_controller.c:80-188 | Takes over the geometry of the identified device; an unknown one is an error and leaves the geometry alone |
| `EpcsFlash.Flash.TestAddress` | qsys/software/ssc-io_bsp/drivers/src/altera_avalon_epcs_flash_controller.c:356-376 | Accepts exactly the offsets inside the device, negative ones excluded |
| `EpcsFlash.Flash.Read` | qsys/software/ssc-io_bsp/drivers/src/altera_avalon_epcs_flash_controller.c:447-470 | Returns the memory from the offset on, or an error and nothing for an offset outside; never changes the memory |
| `EpcsFlash.Flash.CompareChunk` | qsys/software/ssc-io_bsp/drivers/src/altera_avalon_epcs_flash_controller.c:207-227 | The comparison of a chunk is zero exactly if its place holds it |
| `EpcsFlash.Flash.Memcmp` | qsys/software/ssc-io_bsp/drivers/src/altera_avalon_epcs_flash_controller.c:190-241 | The comparison in chunks of 32 bytes is zero exactly if the memory range holds the data |
| `EpcsFlash.Flash.EraseBlock` | qsys/software/ssc-io_bsp/drivers/src/altera_avalon_epcs_flash_controller.c:384-399 | Erases exactly one block, or reports an offset outside and does nothing |
| `EpcsFlash.NextPage` | qsys/software/ssc-io_bsp/drivers/src/altera_avalon_epcs_flash_controller.c:426-437 | Each round of the page loop stays in one page, only the last can end before its page does, and the rounds are as many as the pages touched |
| `EpcsFlash.OverlayInPage` | qsys/software/ssc-io_bsp/drivers/src/altera_avalon_epcs_flash_controller.c:426-437 | A program that ends in its page never wraps |
| `EpcsFlash.AroundSplit` | qsys/software/ssc-io_bsp/drivers/src/altera_avalon_epcs_flash_controller.c:426-437 | Pieces written one after the other are the whole written at once |
| `EpcsFlash.AroundInPage` | qsys/software/ssc-io_bsp/drivers/src/altera_avalon_epcs_flash_controller.c:426-437 | A page program does what its bytes one by one would, wherever the page lies |
| `EpcsFlash.AroundInside` | qsys/software/ssc-io_bsp/drivers/src/altera_avalon_epcs_flash_controller.c:426-437 | Inside the device the bytes go where their offsets say |
| `EpcsFlash.Flash.WritePage` | qsys/software/ssc-io_bsp/drivers/src/altera_avalon_epcs_flash_controller.c:428-436 | One round of the page loop: a program of the rest of the page or of the data, whichever is less |
| `EpcsFlash.Flash.WriteBlock` | qsys/software/ssc-io_bsp/drivers/src/altera_avalon_epcs_flash_controller.c:409-440 | For every start and length, also past the end of the device, the page programs together clear every byte into its place once, in as many programs as there are pages touched |
| `EpcsFlash.BlockRewritten` | qsys/software/ssc-io_bsp/drivers/src/altera_avalon_epcs_flash_controller.c:290-303 | Erasing and programming a block that differs leaves the data in it and 0xFF around, and does change the memory |
| `EpcsFlash.BlockMatched` | qsys/software/ssc-io_bsp/drivers/src/altera_avalon_epcs_flash_controller.c:290-303 | Skipping a block that holds its part of the data is right |
| `EpcsFlash.Flash.UpdateBlock` | qsys/software/ssc-io_bsp/drivers/src/altera_avalon_epcs_flash_controller.c:286-303 | One block is left alone if it matches, and otherwise erased and programmed |
| `EpcsFlash.Flash.WriteBlocks` | qsys/software/ssc-io_bsp/drivers/src/altera_avalon_epcs_flash_controller.c:274-318 | The block loop turns the memory into the one that the byte-by-byte definition of a write gives |
| `EpcsFlash.Flash.Write` | qsys/software/ssc-io_bsp/drivers/src/altera_avalon_epcs_flash_controller.c:256-322 | For every offset and length: the exact memory afterwards, the code 0, and no erase or program at all exactly if the memory stays the same |
| `EpcsFlash.ReadBack` | qsys/software/ssc-io_bsp/drivers/src/altera_avalon_epcs_flash_controller.c:256-322 | Every byte of the range that lies in the device holds the data afterwards |
| `EpcsFlash.RestIsLost` | qsys/software/ssc-io_bsp/drivers/src/altera_avalon_epcs_flash_controller.c:256-322 | What lies past the end of the device leaves no trace: writing the bytes that lie in it is the same |
| `EpcsFlash.StoredInFull` | qsys/software/ssc-io_bsp/drivers/src/altera_avalon_epcs_flash_controller.c:256-322 | The range lies in the device exactly if no other data of the same length would leave the same memory, and then it reads back as the data; success is reported in every case |
| `EpcsFlash.Survives` | qsys/software/ssc-io_bsp/drivers/src/altera_avalon_epcs_flash_controller.c:246-255 | When exactly a byte outside the range survives: its block is missed, or matched already, or the byte is 0xFF |
| `EpcsFlash.WriteTwice` | qsys/software/ssc-io_bsp/drivers/src/altera_avalon_epcs_flash_controller.c:283-303 | Writing the same data again changes nothing |
| `Ring.TakeRun` | qsys/software/ssc-io_bsp/drivers/src/altera_avalon_jtag_uart_read.c:122-140 | Taking a contiguous run off a ring takes its oldest bytes in order |
| `Ring.PutRun` | qsys/software/ssc-io_bsp/drivers/src/altera_avalon_jtag_uart_write.c:105-126 | Publishing a contiguous run appends it to the ring, with one slot left free |
| `Ring.RoomBehind` | qsys/software/ssc-io_bsp/drivers/src/altera_avalon_jtag_uart_init.c:137-139 | A ring is full exactly if the place after the newest byte is the oldest one |
| `JtagUart.Uart.constructor` | qsys/software/ssc-io_bsp/drivers/src/altera_avalon_jtag_uart_init.c:66-88 | Starts with both rings empty and only the read interrupt on |
| `JtagUart.Uart.ReceiveBytes` | qsys/software/ssc-io_bsp/drivers/src/altera_avalon_jtag_uart_init.c:125-167 | Valid bytes popped from the hardware go into the ring in order, none without room and at least one with it, until there are none or the ring is full; the read interrupt is on afterwards exactly if nothing is left over |
| `JtagUart.Uart.TransmitBytes` | qsys/software/ssc-io_bsp/drivers/src/altera_avalon_jtag_uart_init.c:169-195 | The oldest bytes go to the hardware in order, as many as there are and it has room for, and the write interrupt goes off exactly if the room was more |
| `JtagUart.Uart.Service` | qsys/software/ssc-io_bsp/drivers/src/altera_avalon_jtag_uart_init.c:119-195 | A round serves both halves as its read of the control register shows, each as far as it can, and one that finds something to do leaves less to do |
| `JtagUart.Uart.Irq` | qsys/software/ssc-io_bsp/drivers/src/altera_avalon_jtag_uart_init.c:110-197 | The interrupt routine ends whatever the host does, and only after a read of the control register that shows nothing to do; it keeps the invariant: nothing lost, repeated, reordered or stranded |
| `JtagUart.Uart.Timeout` | qsys/software/ssc-io_bsp/drivers/src/altera_avalon_jtag_uart_init.c:203-225 | Counts the seconds without the host up to a limit, starts again when the host has been active, and keeps the invariant |
| `JtagUart.Uart.BesideWriter` | qsys/software/ssc-io_bsp/drivers/src/altera_avalon_jtag_uart_init.c:110-225 | Interrupts and a reader, in any number and order, leave a writer what it relies on |
| `JtagUart.Uart.BesideReader` | qsys/software/ssc-io_bsp/drivers/src/altera_avalon_jtag_uart_init.c:110-225 | Interrupts and a writer, in any number and order, leave a reader what it relies on |
| `JtagUart.Uart.WriteRunFits` | qsys/software/ssc-io_bsp/drivers/src/altera_avalon_jtag_uart_write.c:105-119 | The run computed from an index that interrupts move fits with a slot to spare, and is empty exactly if the ring is full |
| `JtagUart.Uart.CopyIn` | qsys/software/ssc-io_bsp/drivers/src/altera_avalon_jtag_uart_write.c:122 | With interrupts and a reader between any two bytes, the copy never touches unsent data and stays in the buffer |
| `JtagUart.Uart.AddPiece` | qsys/software/ssc-io_bsp/drivers/src/altera_avalon_jtag_uart_write.c:119-126 | A piece that fits, copied and published with interrupts and a reader in between, is appended to the bytes accepted |
| `JtagUart.Uart.FillRing` | qsys/software/ssc-io_bsp/drivers/src/altera_avalon_jtag_uart_write.c:103-127 | Accepts the first bytes of the data, and leaves some over only if the ring was full when bytes were last published, or from the start |
| `JtagUart.Uart.PublishWritten` | qsys/software/ssc-io_bsp/drivers/src/altera_avalon_jtag_uart_write.c:126-126 | Publishing appends the bytes copied, and leaves a reader what it relies on |
| `JtagUart.Uart.StartTransmitting` | qsys/software/ssc-io_bsp/drivers/src/altera_avalon_jtag_uart_write.c:136-139 | Turns the write interrupt on, so that published bytes are not stranded, and leaves a reader what it relies on |
| `JtagUart.Uart.AwaitDrain` | qsys/software/ssc-io_bsp/drivers/src/altera_avalon_jtag_uart_write.c:183-188 | The wait ends only when the ring has room or the host has been found quiet; an observer who gives up sees it blocked |
| `JtagUart.Uart.Write` | qsys/software/ssc-io_bsp/drivers/src/altera_avalon_jtag_uart_write.c:84-215 | For every interleaving with interrupts and a reader: the bytes accepted are the first ones, as many as returned; bytes are left over only after the ring has been filled, or none accepted only if it was full, and then a call returns only if it is non-blocking or has found the host quiet for its timeout; error codes; no byte is left without the write interrupt |
| `JtagUart.Uart.ReadRunThere` | qsys/software/ssc-io_bsp/drivers/src/altera_avalon_jtag_uart_read.c:122-131 | The run computed from the snapshot is in the ring, and is empty exactly if the ring is |
| `JtagUart.Uart.CopyOut` | qsys/software/ssc-io_bsp/drivers/src/altera_avalon_jtag_uart_read.c:136 | With interrupts and a writer between any two bytes, what is copied is the oldest bytes of the ring |
| `JtagUart.Uart.DrainRing` | qsys/software/ssc-io_bsp/drivers/src/altera_avalon_jtag_uart_read.c:120-142 | Returns the next bytes, at least those there were as far as there is space |
| `JtagUart.Uart.ConsumeRead` | qsys/software/ssc-io_bsp/drivers/src/altera_avalon_jtag_uart_read.c:140-140 | Freeing the slots copied out returns the oldest bytes, and leaves a writer what it relies on |
| `JtagUart.Uart.ResumeReceiving` | qsys/software/ssc-io_bsp/drivers/src/altera_avalon_jtag_uart_read.c:188-195 | Turns the read interrupt back on once there is room, and leaves a writer what it relies on |
| `JtagUart.Uart.Read` | qsys/software/ssc-io_bsp/drivers/src/altera_avalon_jtag_uart_read.c:101-203 | For every interleaving with interrupts and a writer: the bytes returned are the next ones received, in order, at most as many as asked and at least those there were; a blocking call returns none only if it has found the host quiet for its timeout; error codes; the invariant holds and the read interrupt is on again |
| `CncCard.StepKeeps` | drv/src/cnc_card.c:250-340 | Every access of the writer or of the handler, in any order, keeps the invariant, unless it is a late wake-up |
| `CncCard.InvConsistent` | drv/src/cnc_card.c:250-312 | Words sent and words waiting are the accepted words, sends are whole buffers, and the two sides are never at the buffer together |
| `CncCard.SafeRuns` | drv/src/cnc_card.c:250-340 | The same after every run of single accesses without a late wake-up |
| `CncCard.PromptRunsAreSafe` | drv/src/cnc_card.c:309-310 | No wake-up is late if nothing comes between the clearing of the level and the wake-up, so that all such runs are safe |
| `CncCard.WakeSafeIff` | drv/src/cnc_card.c:258-286 | A wake-up leads to a run that loses or repeats words exactly if it finds the buffer full again and the writer waiting: the writer does not look at the level after having been woken |
| `CncCard.LateWakeHappens` | drv/src/cnc_card.c:309-310 | For every size of the buffer some run from the start comes to such a wake-up |
| `CncCard.SomeRunBreaks` | drv/src/cnc_card.c:270-312 | For every size of the buffer some run from the start loses or repeats words |
| `CncDriver.Card.DataSend` | drv/src/cnc_card.c:298-312 | With anything the writer does in between: sends exactly if the level it sees is that of a full buffer, and then exactly one whole buffer |
| `CncDriver.Card.Interrupt` | drv/src/cnc_card.c:314-340 | Does nothing for a foreign interrupt, and otherwise sends one whole buffer exactly if the level it sees is full |
| `CncDriver.Card.AwaitRoom` | drv/src/cnc_card.c:258-273 | Sleeps until woken or signalled, and goes on without looking at the level, or fails for a signal that is pending |
| `CncDriver.Card.CopyFromUser` | drv/src/cnc_card.c:282-284 | Copies word by word and fails exactly if a word of the count cannot be read |
| `CncDriver.Card.Accept` | drv/src/cnc_card.c:275-288 | Accepts the first words and counts them, or none if one of them cannot be read; unless a wake-up came late, the count is that of all the words or of those that fill the buffer, and at least one if there is a word |
| `CncDriver.StoresWhatFits` | drv/src/cnc_card.c:276-286 | In a run without a late wake-up a writer that is about to store the level has counted the words that fit |
| `CncDriver.Card.Enter` | drv/src/cnc_card.c:244-273 | Goes on to the copy, or ends with an error code that has its cause in the history, and nothing accepted |
| `CncDriver.Card.Write` | drv/src/cnc_card.c:234-296 | With the handler between any two accesses: none is accepted and an error code returned, or words from the first on; -EAGAIN only from a non-blocking call that saw the buffer full, -EINTR and -ERESTARTSYS only for a pending signal, -EFAULT only for a word that cannot be read; unless a wake-up came late, the words accepted are words of the request, as many as the bytes returned and at least one if there is any; all accesses are steps of the machine |
| `CncDriver.Card.Safe` | drv/src/cnc_card.c:250-312 | Whatever the two routines have done: unless a wake-up came late, every accepted word went out once and in order or waits in the buffer |
| `AlarmTime.TickDue` | qsys/software/ssc-io_bsp/HAL/src/alt_tick.c:96-115 | A sound deadline expires on a tick exactly if one tick was left, and otherwise has one less, across the wrap of the counter |
| `AlarmTime.DueExpires` | qsys/software/ssc-io_bsp/HAL/src/alt_tick.c:96-115 | A sound deadline expires for the first time after exactly as many ticks as are left |
| `AlarmTime.ExpiresOnce` | qsys/software/ssc-io_bsp/HAL/src/alt_tick.c:96-115 | There is only one such number of ticks |
| `AlarmTime.StartExpiresIff` | qsys/software/ssc-io_bsp/HAL/src/alt_alarm_start.c:78-96 | An alarm started for n ticks expires on tick n + 1 exactly if n is not 2^32 - 1 or the counter is about to wrap; otherwise it expires at once |
| `AlarmTime.RearmDue` | qsys/software/ssc-io_bsp/HAL/src/alt_tick.c:127-138 | After a callback the alarm expires again in exactly the period it asked for |
| `Alarms.Insert` | qsys/software/ssc-io_bsp/HAL/inc/sys/alt_llist.h:90-98 | The element becomes the first of a well-formed ring, unless it is on it already: then no list is left |
| `Alarms.Remove` | qsys/software/ssc-io_bsp/HAL/inc/sys/alt_llist.h:105-117 | The neighbours are linked to each other and the element to itself |
| `Alarms.Relinked` | qsys/software/ssc-io_bsp/HAL/inc/sys/alt_llist.h:105-117 | Taking the k-th element out leaves the others linked both ways in their order |
| `Alarms.RemoveFrom` | qsys/software/ssc-io_bsp/HAL/inc/sys/alt_llist.h:105-117 | The same in place; an element that is in no list leaves the list alone |
| `Alarms.Clock.Start` | qsys/software/ssc-io_bsp/HAL/src/alt_alarm_start.c:64-112 | Error codes; otherwise the alarm is the first, with its deadline set, and the list is well formed exactly if the alarm was not on it already |
| `Alarms.Clock.Stop` | qsys/software/ssc-io_bsp/HAL/src/alt_tick.c:66-73 | The list is the old one without the alarm, in order; stopping twice is harmless |
| `Alarms.Clock.VisitNth` | qsys/software/ssc-io_bsp/HAL/src/alt_tick.c:100-141 | An alarm is visited with its state from before the tick, and the walk goes on to the next one even if it leaves the list |
| `Alarms.Clock.Tick` | qsys/software/ssc-io_bsp/HAL/src/alt_tick.c:87-148 | The walk ends; every alarm is visited exactly once; the list stays well formed and is the old one, in order, without the alarms whose callback returned zero |
| `Alarms.TickMeaning` | qsys/software/ssc-io_bsp/HAL/src/alt_tick.c:109-139 | Over a tick the callback is made exactly when due, its answer is when it is due next, and zero takes the alarm off the list |
| `Alarms.CallsOnSchedule` | qsys/software/ssc-io_bsp/HAL/src/alt_tick.c:96-138 | In any run of ticks, across any number of wraps, the calls made are those of a plain schedule with no counter in it |
| `Alarms.LateRuns` | qsys/software/ssc-io_bsp/HAL/src/alt_tick.c:115-138 | The calls made to an alarm whose deadline is the current tick, for any run of ticks |
| `Alarms.StartedAlarmRuns` | qsys/software/ssc-io_bsp/HAL/src/alt_alarm_start.c:78-98 | A started alarm runs on the schedule from its first call on; one started for 2^32 - 1 ticks runs on the one of a deadline that is the current tick |
| `Alarms.OneTickMore` | qsys/software/ssc-io_bsp/HAL/src/alt_tick.c:87-148 | What an alarm is after one tick more, and whether it has left |
| `Alarms.Clock.Ticks` | qsys/software/ssc-io_bsp/HAL/src/alt_tick.c:87-148 | After any number of ticks every alarm is in the state that its own ticks take it to, so that its calls are those of the schedule, and the list is the old one, in order, without the alarms that have left |
| `EncodePd.Encoder.Clock` | rtl/encode_pd.v:53-250 | A clock edge takes all registers to their next values at once |
| `EncodePd.AddIsModular` | rtl/encode_pd.v:173-173 | The counters add modulo 2^32 |
| `EncodePd.PhaseOf` | rtl/encode_pd.v:53-87 | The window flag is up every 100000 clocks from reset and at no other |
| `EncodePd.Updates` | rtl/encode_pd.v:229-250 | The outputs change on the clock after every 100000 from reset, to the sums of the counters, and on no other |
| `EncodePd.NoOutputsYet` | rtl/encode_pd.v:229-250 | Before the first of these they are zero |
| `EncodePd.WindowGrows` | rtl/encode_pd.v:165-224 | From the clearing of the window on, total and window grow by the same pulses, and a renew clears both |
| `EncodePd.WindowConserved` | rtl/encode_pd.v:165-250 | Between two updates, for all inputs: with no renew the total grows by what the window publishes and by the pulses of the two clocks around the clearing, 0, 1 or 2 more; after a renew the total is what the window publishes, and the pulse of the second clock more if the last renew came with the first |
| `EncodePd.FirstWindow` | rtl/encode_pd.v:165-250 | Up to the first update window and total are equal, renewed or not |
| `EncodePd.FollowsStep` | rtl/encode_pd.v:92-160 | Edge detector and direction registers follow the line changes, whatever the pace above three clocks |
| `EncodePd.DirectionOf` | rtl/encode_pd.v:154-160 | A step is counted up exactly if it is the first or the step before it went forward |
| `EncodePd.WithinOne` | rtl/encode_pd.v:199-224 | That count is the number of forward steps, or one more while the last step went back |
| `EncodePd.CountsStep` | rtl/encode_pd.v:199-224 | Each clock keeps the counters at the steps counted since a given point |
| `EncodePd.Directions` | rtl/encode_pd.v:92-224 | For lines that start at 00 and change one at a time, three clocks or more apart: the counters sum to the steps counted since the last renew, and the up counter is the forward ones of them, one more while the last step went back and one less if the last before the renew did, modulo 2^32 |
| `EncodePd.NoBase` | rtl/encode_pd.v:199-224 | With no renew these are all the steps since reset |
| `FdPool.FirstFree` | qsys/software/ssc-io_bsp/HAL/src/alt_get_fd.c:77-89 | The search finds the first free descriptor |
| `FdPool.Table.constructor` | qsys/software/ssc-io_bsp/HAL/src/alt_dev.c:118-149 | Three descriptors on the null device, the others free, and no mark |
| `FdPool.Table.GetFd` | qsys/software/ssc-io_bsp/HAL/src/alt_get_fd.c:54-101 | Takes the first free descriptor and raises the mark to it, or fails with the pool as it was |
| `FdPool.Table.ReleaseFd` | qsys/software/ssc-io_bsp/HAL/src/alt_release_fd.c:44-51 | Frees a descriptor above 2 and never one of the first three |
| `FdPool.Table.FileLocked` | qsys/software/ssc-io_bsp/HAL/src/alt_open.c:64-92 | Marks the descriptor as one of a device, and finds a holder among the others up to the mark if there is one |
| `FdPool.HeldBelow` | qsys/software/ssc-io_bsp/HAL/src/alt_open.c:77-85 | The scan up to the mark misses no holder |
| `FdPool.Table.OpenFile` | qsys/software/ssc-io_bsp/HAL/src/alt_open.c:105-171 | A failed open leaves all descriptors as they were; one that succeeds takes the first free descriptor, on a device that nobody holds |
| `FdPool.Table.CloseFile` | qsys/software/ssc-io_bsp/HAL/src/alt_close.c:64-101 | Error codes, and what the pool is afterwards |
| `FdPool.Table.LockFd` | qsys/software/ssc-io_bsp/HAL/src/alt_fd_lock.c:54-75 | The lock is granted exactly if no other descriptor below the mark refers to the device |
| `FdPool.Table.UnlockFd` | qsys/software/ssc-io_bsp/HAL/src/alt_fd_unlock.c:52-56 | Takes the exclusive flag away and nothing else |
| `FdPool.Table.Ioctl` | qsys/software/ssc-io_bsp/HAL/src/alt_ioctl.c:106-168 | The exclusive requests are answered here for devices only, all others by the target |
| `FdPool.Table.OpenFd` | qsys/software/ssc-io_bsp/HAL/src/alt_io_redirect.c:58-72 | Points a standard descriptor at what was opened and frees the temporary one; on failure nothing changes |
| `FdPool.Table.IoRedirect` | qsys/software/ssc-io_bsp/HAL/src/alt_io_redirect.c:85-94 | The three redirections in order keep the pool sound |
| `FdPool.RedirectMoves` | qsys/software/ssc-io_bsp/HAL/src/alt_io_redirect.c:58-72 | Redirection moves what it has opened, if it has, and touches no other descriptor |
| `FdPool.OpenSucceedsIff` | qsys/software/ssc-io_bsp/HAL/src/alt_open.c:105-171 | An open succeeds exactly for a target that exists, with a free descriptor, on a device that nobody holds, if the target agrees |
| `FdPool.OpenAnswers` | qsys/software/ssc-io_bsp/HAL/src/alt_open.c:105-171 | It takes the first free descriptor and keeps the access mode; a failed one says why and leaves all descriptors as they were |
| `FdPool.CloseFrees` | qsys/software/ssc-io_bsp/HAL/src/alt_release_fd.c:44-51 | A close frees any descriptor above 2 and leaves the others alone |
| `FdPool.CloseLetsGo` | qsys/software/ssc-io_bsp/HAL/src/alt_close.c:64-101 | Once the holder of a device is closed the device is not held and can be opened |
| `FdPool.UnlockLetsGo` | qsys/software/ssc-io_bsp/HAL/src/alt_fd_unlock.c:52-56 | The same once it gives the lock back, as far as there are free descriptors |
| `FdPool.LockHolds` | qsys/software/ssc-io_bsp/HAL/src/alt_fd_lock.c:54-75 | A lock that is granted makes the descriptor the holder and changes nothing else; one that is not changes nothing |
| `FdPool.StepKeeps` | qsys/software/ssc-io_bsp/HAL/src/alt_open.c:64-171 | Each call keeps the pool sound and the holders exclusive |
| `FdPool.EveryRun` | qsys/software/ssc-io_bsp/HAL/src/alt_open.c:64-171 | In every run of calls: descriptors 0 to 2 in use, none above the mark in use, flags only on devices, at most one holder of a device, and none beside it if it is at the mark |
| `FdPool.HolderStays` | qsys/software/ssc-io_bsp/HAL/src/alt_open.c:64-92 | While a descriptor holds its device, a call neither takes the flag away, nor opens the device, nor adds a descriptor for it |
| `FdPool.HolderAlwaysStays` | qsys/software/ssc-io_bsp/HAL/src/alt_open.c:64-92 | The same over every run of calls that does not give the holder up |
| `FdPool.GrantedToSoleIff` | qsys/software/ssc-io_bsp/HAL/src/alt_fd_lock.c:61-68 | A granted lock goes to the only descriptor of its device exactly if the mark stands at it or at a descriptor of something else |
| `FdPool.GrantedToShared` | qsys/software/ssc-io_bsp/HAL/src/alt_fd_lock.c:61-68 | Two opens and a lock after which the holder is not alone |
| `TimeOfDay.WallClock.Settle` | qsys/software/ssc-io_bsp/HAL/src/alt_gettod.c:95-112 | The two loops bring the microseconds into range without changing the time, or stop at zero if it is negative |
| `TimeOfDay.WallClock.GetTimeOfDay` | qsys/software/ssc-io_bsp/HAL/src/alt_gettod.c:71-124 | The reading, or an error without a clock |
| `TimeOfDay.WallClock.SetTimeOfDay` | qsys/software/ssc-io_bsp/HAL/src/alt_settod.c:72-96 | What is stored, with the product cut to 32 bits, or an error that changes nothing |
| `TimeOfDay.ElapsedIsExact` | qsys/software/ssc-io_bsp/HAL/src/alt_gettod.c:91-93 | Seconds and microseconds of the elapsed ticks make up exactly their time if ticks divide a second |
| `TimeOfDay.TruncationIff` | qsys/software/ssc-io_bsp/HAL/src/alt_settod.c:83-84 | Cutting the product to 32 bits does no harm exactly if its high part is a multiple of 15625 |
| `TimeOfDay.SetThenGet` | qsys/software/ssc-io_bsp/HAL/src/alt_gettod.c:91-112 | A time that was set reads, k ticks later, as itself and k ticks, in range |
| `TimeOfDay.FitsIsKept` | qsys/software/ssc-io_bsp/HAL/src/alt_settod.c:83-84 | A product of 32 bits loses nothing |
| `TimeOfDay.AtOnceIff` | qsys/software/ssc-io_bsp/HAL/src/alt_settod.c:55-64 | A time that was set reads at once as itself, at any tick rate, exactly if the cut did no harm or, for time zero, if the reading stops at zero |
| `TimeOfDay.AtOnceFails` | qsys/software/ssc-io_bsp/HAL/src/alt_settod.c:83-84 | Ticks, rate and time for which it does not |
| `TimeOfDay.SetThenGetIff` | qsys/software/ssc-io_bsp/HAL/src/alt_gettod.c:91-112 | Where ticks divide a second, it reads as itself and k ticks exactly if the cut did no harm, whatever the time and however late, but for time zero read at once |
| `TimeOfDay.LaterAtAnyRate` | qsys/software/ssc-io_bsp/HAL/src/alt_gettod.c:91-112 | At any rate, k ticks later a time that was set reads as itself and k ticks, and a second for each by which the seconds got ahead meanwhile, and what the cut product has lost, unless that is negative |
| `TimeOfDay.NeverSlips` | qsys/software/ssc-io_bsp/HAL/src/alt_gettod.c:91-93 | Where ticks divide a second the seconds never get ahead |
| `TimeOfDay.SecondIff` | qsys/software/ssc-io_bsp/HAL/src/alt_gettod.c:91-93 | As many ticks as make a second read as one second exactly if ticks divide a second or are shorter than a microsecond |
| `LogPrintf.Port.RepChar` | qsys/software/ssc-io_bsp/HAL/src/alt_log_printf.c:106-110 | Sends the character as often as asked, never for a negative count |
| `LogPrintf.Port.Places` | qsys/software/ssc-io_bsp/HAL/src/alt_log_printf.c:248-255 | Counts the digits and finds the place value of the first, which never leaves 32 bits |
| `LogPrintf.Port.PrintDigits` | qsys/software/ssc-io_bsp/HAL/src/alt_log_printf.c:282-296 | The digits come out from the first place down |
| `LogPrintf.TopDigit` | qsys/software/ssc-io_bsp/HAL/src/alt_log_printf.c:282-296 | Digits taken off the top are those taken off the bottom |
| `LogPrintf.Port.PrintInteger` | qsys/software/ssc-io_bsp/HAL/src/alt_log_printf.c:206-297 | Prints the field: padding, sign and digits in the right order |
| `LogPrintf.DigitsParse` | qsys/software/ssc-io_bsp/HAL/src/alt_log_printf.c:282-296 | A numeral of base 8, 10 or 16 reads back as its number |
| `LogPrintf.NoLeadingZero` | qsys/software/ssc-io_bsp/HAL/src/alt_log_printf.c:247-255 | It starts with a zero exactly if it is zero |
| `LogPrintf.FieldWidth` | qsys/software/ssc-io_bsp/HAL/src/alt_log_printf.c:257-280 | The length is the width asked for or that of sign and digits, whichever is more, for zeros and for blanks |
| `LogPrintf.FieldReads` | qsys/software/ssc-io_bsp/HAL/src/alt_log_printf.c:206-297 | Every field reads back as the value, the least negative one included |
| `LogPrintf.Port.Convert` | qsys/software/ssc-io_bsp/HAL/src/alt_log_printf.c:200-335 | What each directive letter prints |
| `LogPrintf.Port.Character` | qsys/software/ssc-io_bsp/HAL/src/alt_log_printf.c:130-340 | One character of the format takes the state machine one step |
| `LogPrintf.Port.Printf` | qsys/software/ssc-io_bsp/HAL/src/alt_log_printf.c:114-341 | A format sends what its recursive reading gives |
| `LogPrintf.WidthIsRead` | qsys/software/ssc-io_bsp/HAL/src/alt_log_printf.c:176-190 | The characters of a width, read one by one, give that width |
| `LogPrintf.FormatPrints` | qsys/software/ssc-io_bsp/HAL/src/alt_log_printf.c:114-341 | Any sequence of characters, percent signs, letters that mean nothing and directives, written out as a format, prints the meanings of its parts in order, with the arguments in order |
| `LogPrintf.DirectiveReads` | qsys/software/ssc-io_bsp/HAL/src/alt_log_printf.c:200-317 | d and i read back in base 10 as the signed value, u in base 10, o in base 8, x and X in base 16 as the unsigned one |
| `LogPrintf.DirectiveChars` | qsys/software/ssc-io_bsp/HAL/src/alt_log_printf.c:286-292 | Only X prints capitals, and no small letters; with the zero flag there is no blank |
| `LogPrintf.DirectivePads` | qsys/software/ssc-io_bsp/HAL/src/alt_log_printf.c:257-280 | A text is as wide as asked or as it has to be, with blanks before it unless it is an integer with the zero flag |
| `LogPrintf.UnpaddedIs` | qsys/software/ssc-io_bsp/HAL/src/alt_log_printf.c:238-333 | Without padding, an integer has a minus sign exactly if it is negative and no superfluous zero, a character is the low byte and a string is itself |
| `LogPrintf.DirectiveIgnores` | qsys/software/ssc-io_bsp/HAL/src/alt_log_printf.c:170-199 | A precision and an l change nothing |

## Left out

- EpcsFlash.Flash.Read: the destination is a returned sequence, not memory that could overlap the source; negative lengths are not modelled.
- EpcsFlash.Flash.WriteBlock: its block_offset parameter, which the code does not use, is dropped; offsets past the 32-bit integers of C are not cut.
- EpcsFlash.Flash.Write: negative lengths are not modelled; one region, as the query sets up.
- EpcsFlash.NextPage: the mask that clears the low bits of an offset is the arithmetic it amounts to for a page of 256 bytes.
- SpiMaster.Core.Command: a call with both lengths zero never leaves the loop and is excluded; one slave is selected throughout.
- EpcsChip: which commands a busy chip ignores, that changing the address mode needs and clears the latch, and that addresses wrap around are taken from the behaviour the driver code relies on; the status-register write command is not used by the flash routines and is left out.
- JtagUart.Uart.Write: one writer at a time, as the write lock ensures; waiting is watched for a given number of polls, and no promise is made that a wait ends.
- JtagUart.Uart.Read: one reader at a time, as the read lock ensures, with the same watch on waiting; the destination is a returned sequence.
- JtagUart.Uart.Timeout: the alarm machinery that calls it is in the alarms part; the event flags it posts matter only with the operating system.
- The small UART driver, the variants for uC/OS-II, the IGNORE_FIFO_FULL_ERROR reset, and the close and ioctl routines of the UART.
- CncCard.SafeRuns: one writing process, since several writers break the level check after the sleep outright; nothing about progress, since a wake-up between the level check and the sleep is lost.
- CncDriver.Card.Write: sizes are in whole words; the remainder of a size that is no multiple of four is ignored by the code as well. Locks appear only as steps, since the two sides share none.
- CncCard: accesses are taken to be in program order on each side; the memory ordering of the processors is not modelled.
- The other routines of the CNC driver (read, ioctl register table, probe and remove, PCI glue): straight-line input and output.
- Alarms.Clock.Tick: callbacks do not start or stop other alarms; the operating-system hook at the end is left out.
- EncodePd.Directions: says nothing about lines that change both at once or faster than every three clocks; the module is reset at the start of a run and not again.
- FdPool.Table.OpenFile: looking names up in the device and file-system lists is a parameter, and the open functions of devices do not touch the descriptor's entry; the private pointer of an entry is not modelled, nor are semaphores, as the calls do not overlap.
- FdPool.Table.CloseFile: callers name descriptors that are in use, as the code requires.
- TimeOfDay.WallClock.GetTimeOfDay: seconds are unbounded, so that overflow of the seconds field is not modelled; a null time zone pointer is not distinguished.
- LogPrintf.Port.Printf: widths are unbounded; arguments are of the kinds the format asks for; waiting for the port is left out; int and long are both 32 bits wide, as on the target.
- rtl/check.v, rtl/key_hold.v, rtl/axis_sel.v, rtl/clk_2ms.v, rtl/aux_fbac.v, rtl/dda.v and the wiring of the card: debouncers, a clock divider, multiplexers and field splits.
- Newlib stubs, cache and exception code, profiling, DMA, system id and generated headers.
