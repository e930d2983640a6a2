# Verified models of the Nios II support package and the VGA logic

This project models the stateful core of the Pac-Man lab's Nios II board support package, and two of its
SystemVerilog modules, in Dafny 4.11, and proves what each of them is for. `dafny verify dfyconfig.toml` checks
everything.

| files | what they model |
|---|---|
| `TransferRing`, `JtagUart` | The interrupt-driven JTAG UART driver: two rings, an enable mask and a host-presence counter shared between foreground calls and interrupts. Every foreground routine calls `Preempt` wherever it touches shared state; that runs any number of interrupt passes, timeouts and host actions, so each method is proved under every interleaving. `Valid` holds in every state an interrupt can observe; the two `Pending` flags mark the windows between an index update and the enable that follows it. The ring size is a parameter of at least two. |
| `LinkedList`, `AlarmTime`, `AlarmScheduler` | The circular doubly linked list, the 32-bit time arithmetic with its rollover flag, and the tick routine that edits the list while walking it. |
| `FdPool`, `FdTable` | The descriptor pool as a value, with what every history of calls keeps, and the array-backed table that refines it call by call. |
| `Words`, `Bits`, `Digits`, `HexPrinter`, `IntegerPrinter`, `Printf` | Numbers as text, the shift-and-mask printer, the division printer and the two printf interpreters around them. |
| `WallClock`, `CacheFlush`, `Heap`, `CallGraph` | Setting and reading the time of day, flushing caches by range, and the bump allocator with the profiler's slab and call graph on top. |
| `Interrupts` | The handler table, the masks and the dispatch loop. As in the driver, a call of `Preempt` stands between any two statements that touch shared state; it runs dispatches whose handlers register handlers and open sections of their own, nested as deep as a parameter says. |
| `Raster`, `Maze` | The VGA counters with their sync signals, and the maze wall lookup. |

Words of 32 bits are bounded explicitly where they wrap (tick counter, time products, signed fields, place values,
printed numbers). Flag words and interrupt masks are sets of bit numbers.

## Where the code and its documentation differ

The models follow the code. Each of these promises fails; the first member named states for all inputs when it
holds, the second, where there is one, a failing input.

- The exclusive lock is documented to need a device nobody else refers to; its scan stops one short of the
  high-water mark (`FdPool.LockAsDocumented`, `FdPool.LockOnSharedDevice`). Mutual exclusion holds all the same
  (`FdPool.MutualExclusion`).
- An alarm with delay 2^32-1 is called on the next tick unless the counter is about to wrap
  (`AlarmTime.AlarmsAreExact`, `AlarmTime.EarlyCall`).
- Setting the time multiplies ticks by microseconds in 32 bits, reading it in 64
  (`WallClock.ClockIsExact`, `WallClock.WrappedProductMisleads`).
- Setting flags through a descriptor nobody opened leaves flags in a free slot, which a failed open then does not
  give back (`FdPool.CleanKept` and `FdPool.OpenRestores`, `FdPool.FlagsLeftBehind`).
- The vertical sync is commented to be low at lines 490 and 491; it is low at 489 and 490, one clock late
  (`Raster.SyncAsCommented`, `Raster.SyncTooEarly`).
- An interruptible section is documented to let only higher priority interrupts in; registering a handler inside
  one writes the whole mask to the hardware (`Interrupts.Controller.RegisterHandler`, `Interrupts.SectionLeaks`).
- A blocking write of zero or fewer bytes fails with EIO (`JtagUart.Uart.Write`).

## Model

| member | source | states |
|---|---|---|
| `JtagUart.Session` | software/usb_kb_bsp/drivers/src/altera_avalon_jtag_uart_write.c:100-214 | For every script of read, write, close and ioctl calls, interrupted anywhere, and the replies to them: the bytes the host typed are all that the reads returned, then the receive ring, then the receive FIFO; what the writes reported as written is what reached the device, then the transmit ring. Every reply is one its call may give: with the host active throughout, a blocking write of one byte or more writes everything, a blocking read does not fail, and a close that succeeds had everything sent; any write takes at least what must fit. The script ends early only at a call whose wait is still on. Between calls a receive ring with room has its interrupt on, and so has a transmit ring with data. |
| `JtagUart.Uart.Write` | software/usb_kb_bsp/drivers/src/altera_avalon_jtag_uart_write.c:76-214 | A write appends exactly the prefix of the data it reports to the accepted bytes and stores at least what fitted at the start. A blocking write of one byte or more that ends has written the full count or leaves with the host inactive; a count of zero or less is an error. The waits are no more than the bytes written, plus the times a host that was gone came back, plus one that found the host inactive. A write that is cut short has a full ring and a present host, or saw the host go and come back more often than it was allowed looks. |
| `JtagUart.Uart.WaitAndRetry` | software/usb_kb_bsp/drivers/src/altera_avalon_jtag_uart_write.c:146-191 | After a wait that ends with the host not seen inactive, the next round stores at least one more byte, unless the host was gone and came back; seeing it inactive means that it is; a wait cut short is still on, with a full ring and a present host. |
| `JtagUart.Uart.Rounds` | software/usb_kb_bsp/drivers/src/altera_avalon_jtag_uart_write.c:100-191 | The rounds after the first leave nothing over unless the host is inactive or the wait is still on; each wait but one that found the host inactive is paid for by a byte stored, in order, or by the return of a host that was gone. |
| `JtagUart.Uart.Fill` | software/usb_kb_bsp/drivers/src/altera_avalon_jtag_uart_write.c:103-127 | The copy loop stores at least the slots that were free at its start although the interrupt routine keeps draining, stops early only at a full ring, and hands the index it compared to the wait loop. |
| `JtagUart.Uart.FreeRun` | software/usb_kb_bsp/drivers/src/altera_avalon_jtag_uart_write.c:103-117 | The free run computed from one snapshot of both indices, on each of the three branches, never reaches into unsent data and never fills the last slot; it is zero exactly for a full ring. |
| `JtagUart.Uart.StoreBlock` | software/usb_kb_bsp/drivers/src/altera_avalon_jtag_uart_write.c:119-124 | Bytes copied into free slots, one at a time with interrupts in between, stay put and are invisible until published. |
| `JtagUart.Uart.Publish` | software/usb_kb_bsp/drivers/src/altera_avalon_jtag_uart_write.c:126-127 | Advancing the write index appends exactly the copied block to the accepted bytes and to the ring. |
| `JtagUart.Uart.EnableTransmit` | software/usb_kb_bsp/drivers/src/altera_avalon_jtag_uart_write.c:136-139 | After the bracket the transmit interrupt is on, the mask word equals the enable bits of the device, and no wakeup is outstanding. |
| `JtagUart.Uart.SetEnable` | software/usb_kb_bsp/drivers/src/altera_avalon_jtag_uart_write.c:136-139 | Mask word and device are written one after the other with interrupts off, so that no byte moves while they differ; one bit is set and the other keeps its value. |
| `JtagUart.Uart.Read` | software/usb_kb_bsp/drivers/src/altera_avalon_jtag_uart_read.c:97-202 | A read returns exactly the next bytes of the stream in order, at least what the ring held at the start, after at most one wait. A blocking read fails only when the host counts as gone or was gone and came back; one that is cut short has an empty ring and a present host. |
| `JtagUart.Uart.Collect` | software/usb_kb_bsp/drivers/src/altera_avalon_jtag_uart_read.c:115-179 | There is at most one wait; a blocking round that ends empty-handed saw the host gone, and one that is cut short leaves an empty ring and a present host. |
| `JtagUart.Uart.Drain` | software/usb_kb_bsp/drivers/src/altera_avalon_jtag_uart_read.c:115-142 | The copy loop delivers the oldest bytes in order into the next part of the buffer and stops early only at an empty ring. |
| `JtagUart.Uart.LoadBlock` | software/usb_kb_bsp/drivers/src/altera_avalon_jtag_uart_read.c:131-135 | While interrupts keep filling the ring the block being copied stays the front of the ring and reaches the buffer unchanged; what the buffer already held is kept. |
| `JtagUart.Uart.EnableReceive` | software/usb_kb_bsp/drivers/src/altera_avalon_jtag_uart_read.c:188-195 | After the bracket the receive interrupt is on, the mask word equals the enable bits of the device, and no wakeup is outstanding. |
| `JtagUart.Uart.Receive` | software/usb_kb_bsp/drivers/src/altera_avalon_jtag_uart_init.c:125-167 | The receive pass, with the host typing all along, takes everything typed before it, or fills the ring and turns its interrupt off; nothing is dropped. |
| `JtagUart.Uart.Transmit` | software/usb_kb_bsp/drivers/src/altera_avalon_jtag_uart_init.c:169-195 | The transmit pass sends exactly the lesser of the room shown and the ring contents, never more than the device has room for, and turns its interrupt off exactly when room was left over, hence with an empty ring. |
| `JtagUart.Uart.Pass` | software/usb_kb_bsp/drivers/src/altera_avalon_jtag_uart_init.c:117-196 | One turn of the interrupt routine reads the control register and serves exactly the pending bits of that word: on RI it empties the FIFO or fills the ring, on WI it sends the lesser of the room shown and the ring, and the half whose bit is not shown does nothing; it goes on exactly if a bit was shown. |
| `JtagUart.Uart.Passes` | software/usb_kb_bsp/drivers/src/altera_avalon_jtag_uart_init.c:117-196 | The routine ends only with a control word that shows nothing pending, or after as many turns, each with a read of the register, as it was allowed. |
| `JtagUart.Uart.Timeout` | software/usb_kb_bsp/drivers/src/altera_avalon_jtag_uart_init.c:203-225 | The activity counter saturates two below the largest integer, activity clears it and counts as a return if the host was gone, and no byte or enable bit moves. |
| `JtagUart.Uart.Close` | software/usb_kb_bsp/drivers/src/altera_avalon_jtag_uart_init.c:241-254 | A close that succeeds means that all accepted bytes reached the device or the host counts as gone; only a non-blocking close fails, and only with bytes left; one that is cut short has bytes left and a present host. |
| `JtagUart.Uart.Ioctl` | software/usb_kb_bsp/drivers/src/altera_avalon_jtag_uart_ioctl.c:52-84 | Only a timeout from 2 up to below the largest integer is taken over, others become the largest but one; a driver without its alarm refuses both requests; from a timeout that large on the host always counts as connected. |
| `JtagUart.Uart.constructor` | software/usb_kb_bsp/drivers/src/altera_avalon_jtag_uart_init.c:66-100 | A fresh driver satisfies all invariants on a device in any state, with the receive interrupt on and the transmit interrupt off. |
| `TransferRing.SpaceIsFree` | software/usb_kb_bsp/drivers/src/altera_avalon_jtag_uart_write.c:105-117 | The space computed by the three branches is free, contiguous and leaves one slot; it is zero exactly for a full ring. |
| `TransferRing.WriteOutside` | software/usb_kb_bsp/drivers/src/altera_avalon_jtag_uart_write.c:119-124 | Writing a slot of the free run changes nothing in the ring. |
| `TransferRing.AppendBlock` | software/usb_kb_bsp/drivers/src/altera_avalon_jtag_uart_write.c:119-127 | Storing a block in the free run and advancing the write index modulo the size appends the block to the contents. |
| `TransferRing.TakeBlock` | software/usb_kb_bsp/drivers/src/altera_avalon_jtag_uart_read.c:117-139 | The run in front of the read index is the oldest part of the contents, and advancing the index drops exactly that part. |
| `TransferRing.Push` | software/usb_kb_bsp/drivers/src/altera_avalon_jtag_uart_init.c:132-150 | Storing one byte and advancing the index appends it, when the next index is not the read index. |
| `TransferRing.FullTest` | software/usb_kb_bsp/drivers/src/altera_avalon_jtag_uart_init.c:132-137 | The next index meets the read index exactly when the ring holds one less than its size, so full and empty are never confused. |
| `AlarmTime.AlarmsAreExact` | software/usb_kb_bsp/HAL/src/alt_alarm_start.c:80-96 | For every start time, delay and answers of the callback, over any number of counter wraps: the calls are at exactly the promised ticks, the first at start plus delay plus one and each next one a period later, if and only if the delay is not 2^32-1 or the counter is about to wrap. |
| `AlarmTime.EarlyCall` | software/usb_kb_bsp/HAL/src/alt_alarm_start.c:80-96 | The failing case: delay 2^32-1 with the counter not about to wrap is called on the very next tick. |
| `AlarmTime.StartTracks` | software/usb_kb_bsp/HAL/src/alt_alarm_start.c:80-96 | A start stores the remainder of the unbounded deadline, with the flag set exactly when the deadline lies past the next wrap. |
| `AlarmTime.StepTracks` | software/usb_kb_bsp/HAL/src/alt_tick.c:96-138 | One tick calls an alarm exactly when the unbounded clock is at its deadline, and what it stores stands for the next deadline, flag included. |
| `AlarmTime.TracksExact` | software/usb_kb_bsp/HAL/src/alt_tick.c:96-138 | Whatever state stands for a deadline is called at exactly the schedule from that deadline on, for any number of ticks. |
| `AlarmTime.TickIsLocal` | software/usb_kb_bsp/HAL/src/alt_tick.c:100-141 | A tick over the whole list steps each alarm as if it were alone, and removes exactly those whose callback answered zero. |
| `AlarmTime.CallsAreLocal` | software/usb_kb_bsp/HAL/src/alt_tick.c:100-141 | A tick calls a due alarm once and no other alarm. |
| `AlarmTime.TickAllConcat` | software/usb_kb_bsp/HAL/src/alt_tick.c:100-141 | A tick keeps the order of the alarms and calls them in that order: two stretches of the list in a row are treated as each is. |
| `AlarmTime.RunIsLocal` | software/usb_kb_bsp/HAL/src/alt_tick.c:100-141 | In any run over any list of distinct alarms, each is called at exactly the ticks it would be called at alone. |
| `AlarmTime.StartedAlarmIsExact` | software/usb_kb_bsp/HAL/src/alt_alarm_start.c:64-112 | An alarm started in front of any list is called exactly when promised, whatever the others do. |
| `AlarmScheduler.VisitsDone` | software/usb_kb_bsp/HAL/src/alt_tick.c:100-141 | Visiting from the head until none is left, while the visits take entries out, has the effect of a tick over the untouched list: the same calls in order, the same surviving entries and data. |
| `AlarmScheduler.SurvivorsConcat` | software/usb_kb_bsp/HAL/src/alt_tick.c:100-141 | The entries that survive a tick keep their order. |
| `AlarmScheduler.Progress.NextLeads` | software/usb_kb_bsp/HAL/src/alt_tick.c:102-140 | One visit keeps the rest of the tick on course, whether it unlinks the entry or keeps it. |
| `AlarmScheduler.Scheduler.Visit` | software/usb_kb_bsp/HAL/src/alt_tick.c:102-138 | The work on one entry of the linked list is one step of the time arithmetic; an entry whose callback answers zero ends up detached and every other entry keeps its data. |
| `AlarmScheduler.Scheduler.Tick` | software/usb_kb_bsp/HAL/src/alt_tick.c:87-148 | A tick ends, advances the wrapping counter by one, visits every registered alarm once in order, calls the due ones only, and leaves the others in order. |
| `AlarmScheduler.Scheduler.StopAlarm` | software/usb_kb_bsp/HAL/src/alt_tick.c:66-73 | Stopping takes out that entry alone; stopping a stopped alarm changes nothing. |
| `AlarmScheduler.Scheduler.StartAlarm` | software/usb_kb_bsp/HAL/src/alt_alarm_start.c:64-112 | A started alarm goes in front of the list with the time and flag of its deadline; without a tick rate or an entry nothing changes and the error is told apart. |
| `AlarmScheduler.Scheduler.Run` | software/usb_kb_bsp/HAL/src/alt_tick.c:87-148 | Any number of ticks makes exactly the calls of the list-level run, through counter wraps. |
| `AlarmScheduler.Scheduler.StartAndRun` | software/usb_kb_bsp/HAL/src/alt_alarm_start.c:64-112 | Starting an alarm on the linked list and running for any number of ticks calls it exactly when promised, and each other alarm when it would be called alone. |
| `LinkedList.List.Insert` | software/usb_kb_bsp/HAL/inc/sys/alt_llist.h:90-98 | An entry goes to the front; the circle stays well formed in both directions and no item changes. |
| `LinkedList.List.Remove` | software/usb_kb_bsp/HAL/inc/sys/alt_llist.h:105-117 | An entry leaves its place and points to itself, the rest keeps its order; removing an entry that is already out changes nothing. |
| `LinkedList.List.WalkForward` | software/usb_kb_bsp/HAL/inc/sys/alt_llist.h:90-117 | Following the next pointers from the head gives the entries and comes back to the head. |
| `LinkedList.List.WalkBackward` | software/usb_kb_bsp/HAL/inc/sys/alt_llist.h:90-117 | Following the previous pointers gives the same entries in the opposite order. |
| `FdPool.MutualExclusion` | software/usb_kb_bsp/HAL/src/alt_fd_lock.c:54-75 | At every moment of every history of open, close, ioctl, fcntl and redirect from boot on, at most one descriptor per device is exclusive, although the scan stops one short. |
| `FdPool.HistoryInv` | software/usb_kb_bsp/HAL/src/alt_dev.c:118-149 | Every reachable pool keeps the standard streams in use, every used slot within the high-water mark, and whatever shares a device with its holder above the holder. |
| `FdPool.ApplyKeeps` | software/usb_kb_bsp/HAL/src/alt_open.c:105-171 | Every call keeps those invariants, including calls that fail. |
| `FdPool.StepMeaning` | software/usb_kb_bsp/HAL/src/alt_open.c:105-171 | What any one call of a history changes: an open the lowest free slot, a close its slot, a lock or unlock one bit, fcntl two bits, a redirection its stream, and nothing else. |
| `FdPool.LockKeeps` | software/usb_kb_bsp/HAL/src/alt_fd_lock.c:61-73 | A granted lock makes no second holder, and whatever else shares the device is the descriptor at the high-water mark, above the new holder. |
| `FdPool.LockMeaning` | software/usb_kb_bsp/HAL/src/alt_fd_lock.c:54-75 | A granted lock makes the caller the holder by one bit, a refused one changes nothing. |
| `FdPool.UnlockMeaning` | software/usb_kb_bsp/HAL/src/alt_fd_unlock.c:52-56 | An unlock clears that bit alone; unlocking after a lock gives back the pool if and only if the caller was not the holder before. |
| `FdPool.IoctlMeaning` | software/usb_kb_bsp/HAL/src/alt_ioctl.c:106-168 | Lock requests on a device are handled without the driver; all others, and all requests to file systems, change nothing and get the answer of the driver, or ENOTTY. |
| `FdPool.LockAsDocumented` | software/usb_kb_bsp/HAL/src/alt_fd_lock.c:41-73 | The lock is granted exactly to a device nobody else refers to, as documented, if and only if the scan sees another one or the descriptor at the high-water mark is the caller or on another device. |
| `FdPool.LockOnSharedDevice` | software/usb_kb_bsp/HAL/src/alt_fd_lock.c:61-69 | The failing case, reached by two opens and a lock request from boot on: the first of two descriptors on one device gets the lock. |
| `FdPool.HeldDeviceStaysClosed` | software/usb_kb_bsp/HAL/src/alt_open.c:64-92 | Opening a held device fails with EACCES, or EMFILE in a full pool, whatever flags and driver status come along. |
| `FdPool.HeldDeviceGainsNothing` | software/usb_kb_bsp/HAL/src/alt_open.c:130-170 | While a device is held no call at all gives it another descriptor. |
| `FdPool.OpenSucceeds` | software/usb_kb_bsp/HAL/src/alt_open.c:130-163 | A successful open changes one formerly free slot only, above the standard streams, without the exclusive bit, on a device nobody holds. |
| `FdPool.OpenMeaning` | software/usb_kb_bsp/HAL/src/alt_open.c:105-171 | An open succeeds exactly when the name resolves, a slot is free, nobody holds the device and the driver agrees, and else reports the first of these that fails; the lowest free slot then has the device and, bit by bit, the flags of the caller, without the exclusive bit and with the device bit for devices only. |
| `FdPool.CloseMeaning` | software/usb_kb_bsp/HAL/src/alt_close.c:64-101 | A close of a slot above the standard streams frees it, device and flags, whatever the driver says, and touches nothing else; the streams stay open. |
| `FdPool.OpenThenClose` | software/usb_kb_bsp/HAL/src/alt_close.c:64-101 | Closing what was just opened gives back every slot. |
| `FdPool.CloseEndsHold` | software/usb_kb_bsp/HAL/src/alt_close.c:64-101 | When the holder of a device closes, nobody holds it and the next open of it succeeds. |
| `FdPool.OpenFails` | software/usb_kb_bsp/HAL/src/alt_open.c:161-170 | A failed open gives back the device of every slot and every slot in use, and all slots as they were when free slots were without flags. |
| `FdPool.OpenRestores` | software/usb_kb_bsp/HAL/src/alt_open.c:161-170 | A failed open gives back the flags of every slot if and only if the free slot it took had none. |
| `FdPool.FailedOpenRestores` | software/usb_kb_bsp/HAL/src/alt_open.c:130-170 | At every moment of every history a failed open gives back all devices and all slots in use; it gives back everything if and only if the slot it took had no flags, which holds in every history without a call that flags a free slot. |
| `FdPool.GetFdLowest` | software/usb_kb_bsp/HAL/src/alt_get_fd.c:77-89 | Allocation takes the lowest free slot and moves the high-water mark to it if need be; it fails only in a full pool. |
| `FdPool.CleanKept` | software/usb_kb_bsp/HAL/src/alt_fcntl.c:84-92 | Free slots stay without flags, if and only if the call is not an F_SETFL of a settable flag on a descriptor nobody opened. |
| `FdPool.HistoryClean` | software/usb_kb_bsp/HAL/src/alt_release_fd.c:44-51 | In every history without an F_SETFL of a settable flag on a descriptor nobody opened, free slots have no flags at any moment. |
| `FdPool.FlagsLeftBehind` | software/usb_kb_bsp/HAL/src/alt_fcntl.c:84-92 | The failing case, reached by two calls from boot on: a flag set on a free slot stays there, and a failed open clears it instead of giving it back. |
| `FdPool.FcntlKeeps` | software/usb_kb_bsp/HAL/src/alt_fcntl.c:66-101 | Changing flags never sets or clears the exclusive or device bit of any slot, and never moves a device. |
| `FdPool.FcntlMeaning` | software/usb_kb_bsp/HAL/src/alt_fcntl.c:66-101 | F_SETFL replaces the two settable bits and keeps every other; F_GETFL answers exactly the bits that are not private. |
| `FdPool.SetThenGet` | software/usb_kb_bsp/HAL/src/alt_fcntl.c:81-92 | What was set is what is read, bit by bit. |
| `FdPool.OpenBits` | software/usb_kb_bsp/HAL/src/alt_open.c:138-145 | The bits passed to open never reach the exclusive and device flags. |
| `FdPool.RedirectKeeps` | software/usb_kb_bsp/HAL/src/alt_io_redirect.c:58-72 | Copying a temporary descriptor over a standard stream and releasing it keeps the invariants. |
| `FdPool.RedirectMeaning` | software/usb_kb_bsp/HAL/src/alt_io_redirect.c:58-72 | The stream refers to what its name resolved to, with the flags of an open, exactly when that open succeeds, and stays where it was otherwise; no other descriptor changes. |
| `FdPool.RedirectAll` | software/usb_kb_bsp/HAL/src/alt_io_redirect.c:85-94 | After the three redirections each stream is on what its name resolved to, if that could be opened at its turn, and on the null device or wherever it was if not. |
| `FdTable.Session` | software/usb_kb_bsp/HAL/src/alt_dev.c:118-149 | The array-backed table driven by a list of calls performs them in order, up to the first that its caller may not make, and goes through a history of the pool, so that everything proved of histories holds of it. |
| `FdTable.Table.Open` | software/usb_kb_bsp/HAL/src/alt_open.c:105-171 | The in-place open, with its roll-back, does to the array what the pool operation does, result included. |
| `FdTable.Table.FileLocked` | software/usb_kb_bsp/HAL/src/alt_open.c:64-92 | The scan up to and including the high-water mark, compared as an unsigned word, marks the slot and finds exactly whether another slot holds the device; it runs only after a descriptor was given out. |
| `FdTable.Table.Lock` | software/usb_kb_bsp/HAL/src/alt_fd_lock.c:54-75 | The scan below the high-water mark and the in-place flag refine the pool operation. |
| `FdTable.Table.Ioctl` | software/usb_kb_bsp/HAL/src/alt_ioctl.c:106-168 | Lock and unlock requests on devices are handled here, all others go to the driver or fail, as the pool operation says. |
| `FdTable.Table.Fcntl` | software/usb_kb_bsp/HAL/src/alt_fcntl.c:66-101 | Reading hides the private bits, setting replaces the two settable bits alone, as the pool operation says. |
| `FdTable.Table.GetFd` | software/usb_kb_bsp/HAL/src/alt_get_fd.c:54-101 | The scan takes the lowest free slot of the array and moves the mark. |
| `FdTable.Table.ReleaseFd` | software/usb_kb_bsp/HAL/src/alt_release_fd.c:44-51 | Slots above the standard streams are cleared, those are not. |
| `FdTable.Table.Close` | software/usb_kb_bsp/HAL/src/alt_close.c:64-101 | The slot is freed whatever the driver says, and its error is passed on. |
| `FdTable.Table.IoRedirect` | software/usb_kb_bsp/HAL/src/alt_io_redirect.c:85-94 | The three streams are redirected in the order output, input, error. |
| `Digits.RenderParses` | software/usb_kb_bsp/HAL/src/alt_log_printf.c:238-297 | Printing a word in any base up to 16, signed or not, with any width and either padding, and reading it back gives the value with its sign, -2^31 included. |
| `Digits.RenderWidth` | software/usb_kb_bsp/HAL/src/alt_log_printf.c:257-279 | The text is exactly as wide as the larger of the width asked for and sign plus digits. |
| `Digits.RenderLayout` | software/usb_kb_bsp/HAL/src/alt_log_printf.c:257-296 | Zeros fill up behind the sign, spaces before it, the digits come last, and the letters are capitals or small as asked. |
| `Digits.TextParses` | software/usb_kb_bsp/HAL/src/alt_log_printf.c:281-296 | The digits alone read back as the number. |
| `Digits.TextLeads` | software/usb_kb_bsp/HAL/src/alt_log_printf.c:247-255 | The first digit is a zero for the number zero only. |
| `IntegerPrinter.CountDigits` | software/usb_kb_bsp/HAL/src/alt_log_printf.c:247-255 | The digit count is exact and the place value is the largest power not above the number, so that it never overflows a word. |
| `IntegerPrinter.PrintDigits` | software/usb_kb_bsp/HAL/src/alt_log_printf.c:281-296 | Dividing by falling place values prints the digits of the number, most significant first. |
| `IntegerPrinter.PrintInteger` | software/usb_kb_bsp/HAL/src/alt_log_printf.c:204-300 | Sign handling, counting, padding and the division loop together print the specified text. |
| `HexPrinter.PrintHex` | software/usb_kb_bsp/HAL/src/alt_printf.c:84-113 | The shift-and-mask loop prints the digits of the number, most significant first and without leading zeros. |
| `HexPrinter.Nibble` | software/usb_kb_bsp/HAL/src/alt_printf.c:92-107 | Masking and shifting at a place reads the base 16 digit there, and is zero exactly when that digit is. |
| `Printf.PrintersAgree` | software/usb_kb_bsp/HAL/src/alt_printf.c:51-132 | On every format both know and all arguments, the two printf interpreters put out the same text; the shift-and-mask loop and the division loop print hexadecimal alike. |
| `Printf.LogPrintf` | software/usb_kb_bsp/HAL/src/alt_log_printf.c:114-341 | The character-driven state machine puts out what its format means; the rows below say what that is. |
| `Printf.ConvertParses` | software/usb_kb_bsp/HAL/src/alt_log_printf.c:204-300 | What d and i put out reads back as the signed word in decimal, u in decimal, o in octal, x and X in hexadecimal, for any width and padding. |
| `Printf.ConvertLooks` | software/usb_kb_bsp/HAL/src/alt_log_printf.c:238-296 | The output of a number conversion is its sign and digits, filled up as asked, with capitals for X alone. |
| `Printf.ConvertStrings` | software/usb_kb_bsp/HAL/src/alt_log_printf.c:302-335 | Characters and strings are put out after the spaces the width leaves; an unknown letter puts out nothing. |
| `Printf.ConversionMeaning` | software/usb_kb_bsp/HAL/src/alt_log_printf.c:130-198 | A whole conversion, with its zero, width, precision and length letter, puts out what its letter says for that padding and width read in decimal; precision and length letter are ignored, and only known letters take an argument. |
| `Printf.TextUnchanged` | software/usb_kb_bsp/HAL/src/alt_log_printf.c:130-145 | Text without percent signs is put out as it is. |
| `Printf.LogStep` | software/usb_kb_bsp/HAL/src/alt_log_printf.c:130-335 | One character of the format puts out its share and leads to the state that means the rest, for every continuation. |
| `Printf.SmallPrintf` | software/usb_kb_bsp/HAL/src/alt_printf.c:51-132 | The small interpreter puts out what its format means, stopping at a lone percent sign at the end. |
| `Printf.SmallMeaning` | software/usb_kb_bsp/HAL/src/alt_printf.c:62-125 | A hexadecimal conversion of the small interpreter reads back as its word and has no leading zero but for zero; an unknown letter puts out nothing and takes no argument. |
| `Printf.SmallTextUnchanged` | software/usb_kb_bsp/HAL/src/alt_printf.c:56-66 | The small interpreter puts out text without percent signs as it is. |
| `WallClock.ClockIsExact` | software/usb_kb_bsp/HAL/src/alt_gettod.c:89-112 | After a normalised time was set, any later reading is that time plus the ticks gone by, to the microsecond and normalised, if and only if the 32-bit product of the set call is harmless (or the epoch was set, no tick went by and the clamp hides the slip); a harmless product never meets the clamp. |
| `WallClock.ClockFromReset` | software/usb_kb_bsp/HAL/src/alt_gettod.c:89-112 | Before the first set the clock tells the time since reset, normalised. |
| `WallClock.FittingIsHarmless` | software/usb_kb_bsp/HAL/src/alt_settod.c:80-84 | A product of ticks and microseconds that fits 32 bits is harmless. |
| `WallClock.WrappedProductMisleads` | software/usb_kb_bsp/HAL/src/alt_settod.c:80-84 | The failing case: at 1000 ticks a second, 72 minutes after reset, the time set is not the time read back at once. |
| `WallClock.WrapModulo` | software/usb_kb_bsp/HAL/src/alt_settod.c:80-84 | A wrap shows in the microseconds unless the number of wraps is a multiple of 15625. |
| `WallClock.RawAfterSet` | software/usb_kb_bsp/HAL/src/alt_gettod.c:91-98 | Before normalisation, set and get cancel up to what the 32-bit product of the set call loses. |
| `WallClock.NormaliseMeaning` | software/usb_kb_bsp/HAL/src/alt_gettod.c:99-112 | The two loops keep the instant and make it normal, except that an instant before the epoch with negative microseconds becomes the epoch. |
| `WallClock.Clock.SetTimeOfDay` | software/usb_kb_bsp/HAL/src/alt_settod.c:72-96 | The offset stored is the time less the ticks so far, each field a wrapped 32-bit result; without a tick rate nothing changes. |
| `WallClock.Clock.GetTimeOfDay` | software/usb_kb_bsp/HAL/src/alt_gettod.c:71-124 | The two in-place loops compute the normalised sum of offset and ticks. |
| `CacheFlush.FlushData` | software/usb_kb_bsp/HAL/src/alt_dcache_flush.c:46-70 | Every line that holds a byte of the range is flushed, and at most one more, right behind it, for any power-of-two line size. |
| `CacheFlush.FlushInstructions` | software/usb_kb_bsp/HAL/src/alt_icache_flush.c:42-84 | Every place of the direct-mapped cache that the range maps to is flushed, also when the length was cut to the cache size. |
| `CacheFlush.FlushRange` | software/usb_kb_bsp/HAL/src/alt_icache_flush.c:53-74 | The loop and the extra flush for an unaligned start hit consecutive lines from the first to the last of the range, and at most one more. |
| `CacheFlush.WholeCacheFlushed` | software/usb_kb_bsp/HAL/src/alt_icache_flush.c:53-62 | As many consecutive lines as the cache has hit every index. |
| `CacheFlush.StepsToEnd` | software/usb_kb_bsp/HAL/src/alt_dcache_flush.c:50-67 | Stepping a line at a time from an aligned start ends on the last line; from an unaligned one it may stop one line short. |
| `Heap.Allocator.Sbrk` | software/usb_kb_bsp/HAL/src/alt_sbrk.c:68-136 | A request succeeds exactly when it fits behind the next word boundary; the block is word aligned, inside the heap and apart from every block before it. |
| `Heap.Allocator.McountAllocate` | software/usb_kb_bsp/HAL/src/alt_gmon.c:133-148 | While slabs can be had, every record is apart from all records, from the rest of the slab and from every other block, and the rest of the slab is never negative. |
| `Heap.AllApartMeans` | software/usb_kb_bsp/HAL/src/alt_sbrk.c:73-95 | The history invariant says that any two blocks ever returned are disjoint. |
| `Heap.Align` | software/usb_kb_bsp/HAL/src/alt_sbrk.c:75-77 | Adding three and masking the two lowest bits gives the next word boundary. |
| `CallGraph.Profile.Record` | software/usb_kb_bsp/HAL/src/alt_gmon.c:159-207 | Recording a new call succeeds exactly when memory for its one or two records can be had, and puts a new arc, and a new function entry when there was none, in front of the right list; all lists stay intact. |
| `CallGraph.Profile.AddArc` | software/usb_kb_bsp/HAL/src/alt_gmon.c:186-203 | A new arc heads the list of its function whenever memory for it can be had; every other list is kept. |
| `CallGraph.FnListKept` | software/usb_kb_bsp/HAL/src/alt_gmon.c:172-184 | New entries and other buckets do not disturb a bucket list. |
| `Interrupts.Controller.Perform` | software/usb_kb_bsp/HAL/src/alt_irq_register.c:75-100 | For any nesting of registrations and interruptible sections, interrupted wherever interrupts are on by dispatches whose handlers do the same: every round of every dispatch was shown only enabled interrupts and called the non-null entry of the lowest; the table holds whole entries, the registrations in order; an interrupt is switched on exactly when it has a handler and only such are let through; interrupt state and priority mask are restored. |
| `Interrupts.Controller.RegisterHandler` | software/usb_kb_bsp/HAL/src/alt_irq_register.c:75-100 | Handler, context and mask change together although written one by one: no interrupt is served from beginning to end, despite the inner restore. A wrong number changes nothing. In an open section the priority mask stays obeyed if and only if it covers the new entry, if that has a handler, and everything else switched on. |
| `Interrupts.SectionLeaks` | software/usb_kb_bsp/HAL/inc/priv/alt_legacy_irq.h:86-99 | The failing case: inside the open section of the routine of interrupt 5, registering a handler for interrupt 3 lets 5 through again. |
| `Interrupts.Controller.IrqEnable` | software/usb_kb_bsp/HAL/inc/priv/alt_legacy_irq.h:86-99 | The bit is added to the mask and the hardware follows, with nothing served meanwhile; afterwards interrupts find table and mask in agreement exactly when they are off or the interrupt has a handler. |
| `Interrupts.Controller.IrqDisable` | software/usb_kb_bsp/HAL/inc/priv/alt_legacy_irq.h:68-81 | The bit is taken from the mask and the hardware follows, with nothing served meanwhile; afterwards interrupts find table and mask in agreement exactly when they are off or the interrupt has no handler. |
| `Interrupts.Controller.Interruptible` | software/usb_kb_bsp/HAL/inc/priv/alt_legacy_irq.h:118-133 | Only switched-on interrupts below the given number are let through, and the former mask is handed back. |
| `Interrupts.Controller.NonInterruptible` | software/usb_kb_bsp/HAL/inc/priv/alt_legacy_irq.h:139-149 | The former mask is in force again and interrupts are off. |
| `Interrupts.Controller.DisableAll` | software/usb_kb_bsp/HAL/inc/sys/alt_irq.h:113-123 | Interrupts are off and the former state is handed back. |
| `Interrupts.Controller.EnableAll` | software/usb_kb_bsp/HAL/inc/sys/alt_irq.h:143-159 | The given state is in force. |
| `Interrupts.Controller.Dispatch` | software/usb_kb_bsp/HAL/src/alt_irq_handler.c:128-159 | The first round is the one of the mask shown, and every round, whatever the handlers changed before it, calls the non-null entry of the lowest bit of a mask within what is enabled then. |
| `Interrupts.Controller.Serve` | software/usb_kb_bsp/HAL/src/alt_irq_handler.c:134-157 | A round is recorded with the mask shown, the enable mask and the table of that moment, and the entry called is the one of the lowest bit. |
| `Interrupts.Controller.LowestBit` | software/usb_kb_bsp/HAL/src/alt_irq_handler.c:134-157 | Testing bit after bit finds the lowest one. |
| `Raster.Position` | VGA_controller.sv:61-80 | After n pixel clocks the counters are n mod 800 and (n div 800) mod 525. |
| `Raster.HorizontalSync` | VGA_controller.sv:87-96 | From the first pixel clock on the horizontal sync is low exactly at pixels 656 to 751. |
| `Raster.VerticalSync` | VGA_controller.sv:100-109 | The vertical sync is low for lines 489 and 490, one clock late. |
| `Raster.SyncAsCommented` | VGA_controller.sv:98-109 | The pulse agrees with the lines 490 and 491 of its comment if and only if the line is not 489 or 491 or the pixel is the first of its line. |
| `Raster.SyncTooEarly` | VGA_controller.sv:98-109 | The failing case: at the second pixel of line 489 the pulse is on. |
| `Raster.FrameDisplays` | VGA_controller.sv:113-121 | Every window of 420000 pixel clocks shows exactly 640 times 480 pixels. |
| `Raster.FrameSyncs` | VGA_controller.sv:100-109 | Past the first clock every such window has exactly 1600 clocks with the vertical sync low. |
| `Raster.VgaController.Clock` | VGA_controller.sv:52-80 | The divided clock drives the registers through the state after half as many edges, rounded up. |
| `Raster.VgaController.Outputs` | VGA_controller.sv:82-121 | The outputs are the position and whether it lies in the display window. |
| `Maze.PathsReverse` | check_walls.sv:10-21 | For every wall map, the way back along a legal path inside the grid is legal and ends where the path began. |
| `Maze.TurnBack` | check_walls_row.sv:16-87 | A wall is the same from both of its sides, across rows too. |
| `Maze.TurnsInside` | check_walls.sv:10-112 | Each turn signal of an inner cell is one bit of the flat maps. |
| `Maze.OutsideLeadsBack` | check_walls.sv:25-112 | At every position outside the grid there is exactly one way to turn, and it leads nearer to the grid. |

## Left out

- JtagUart.Uart.Write: that a wait loop ever ends depends on the host, so `polls` bounds the looks of one wait after its first and the returns of a host that let no byte through; `Spinning` tells that they were used up with the wait still on, and every run of the original that ends is one of the runs with enough of them.
- JtagUart.Uart.Read: the same allowance of looks; the copy loops and wait loops of the one C function are methods of their own.
- JtagUart.Uart.Pass: the outer loop of the interrupt routine takes a number of passes from its caller, since a device that is always ready keeps it going.
- JtagUart.Uart.constructor: starts from empty rings and does not model the registration of the interrupt handler; whether the timeout alarm started is a parameter.
- The small polled UART driver, the uC/OS-II semaphores and wait queues, and the build option that ignores a full FIFO: not part of this configuration.
- Alarm callbacks: they answer a period as an arbitrary function of the alarm and the tick, and do not start or stop alarms themselves.
- AlarmScheduler.Scheduler.StartAlarm: the entry must not be on the list already; starting a registered alarm again corrupts the list.
- Driver callbacks of descriptors (open, close, ioctl): arbitrary status numbers that leave the pool alone; the read and write calls change no shared state.
- FdPool.HeldDeviceStaysClosed: names are resolved beforehand to a device or a file system, the two being different lists; the comparison of name bytes is not modelled.
- FdTable.Table.Fcntl: O_APPEND and O_NONBLOCK come from the C library's header, which is not part of this model; they are taken as bits 3 and 14.
- FdTable.Table.FileLocked: requires a mark that is not negative, as the unsigned comparison would otherwise run past the table; every open gives out a descriptor first.
- FdTable.Table.Close: descriptors that are not negative must name an open slot, as the source goes through the slot's device.
- Printf.LogPrintf: a variable argument that is missing or of the other kind reads as zero or as the empty string, and width arithmetic is not bounded to 32 bits.
- Printf.PrintersAgree: formats with a width, a precision, a length letter or a conversion only the logging printf knows are outside the common ones.
- WallClock.ClockIsExact: a seconds field or tick counter that runs over during the measurement, times before the epoch and tick rates that do not divide a million.
- CacheFlush.FlushData: address ranges that wrap around, and the flush instructions themselves; the line and cache sizes are parameters, as the caches of this configuration have size zero.
- Heap.Allocator.Sbrk: negative increments, the check against the stack pointer and the build option with a separate heap limit; addresses stay below 2^31 so that sums do not wrap.
- Heap.Allocator.McountAllocate: after a failed refill nothing is promised, since the original goes on with the failed address.
- CallGraph.Profile.Record: the search of the assembly fast path and the counting of later calls; addresses of records stand for the records.
- Interrupts.Controller.Dispatch: how often the loop goes round is up to the hardware and arbitrary but finite; handlers do nothing to the controller but register, open sections and be interrupted, and the custom vector instruction is not modelled.
- Interrupts.Controller.DisableAll: an interrupt between the read and the write of the status register leaves the state as one before the read does, so the two are one step.
- Interrupts.Controller.Interruptible: called with interrupts off, from a service routine, as its documentation demands; registrations are made with table and mask in agreement.
- The profiler's histogram of program counters: it can index past its end for some text sizes.
- The USB host code, the colour mapper, the sprites, the ball, the dots and the game's control state machine.
