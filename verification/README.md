# A verified model of the keyboard BSP and the display timing

This project models the stateful core of the Nios II board support package (the Altera HAL and its JTAG UART driver)
and the two clocked SystemVerilog modules that have an invariant worth proving.

* **JTAG UART driver** (`Ring`, `UartHardware`, `UartTransmit`, `UartReceive`, `UartTransmitWaits`,
  `UartReceiveWaits`, `JtagUart`). Two single-producer single-consumer rings of any length N >= 2 are shared between
  foreground calls and an interrupt routine.
  `UartTransmit` and `UartReceive` are machines in which every shared access of the foreground, and every byte of
  memcpy, is a step, and interrupts and alarm callbacks may come between any two steps. `JtagUart` is the driver as
  written, with arrays and loops; each statement that touches shared state is one step of a machine, and a schedule
  says which interrupts come before it. The theorems about runs of the machines therefore hold of the driver. A call
  that is still spinning after the last interrupt of its schedule would spin for ever; the contracts say when.
* **Alarms** (`AlarmSpec`, `AlarmList`). `AlarmSpec` has the scheduler twice, with a 32-bit counter and a rollover flag
  per alarm and with unbounded deadlines, and proves that the first refines the second. `AlarmList` is the intrusive
  circular list, walked by alt_tick while callbacks relink it, and refines the first.
* **Descriptors** (`FdSpec`, `FdTable`). The table functions and the invariants of every sequence of calls; and the same
  calls on an array with scans in place.
* **Printing** (`Numerals`, `LogPrintf`, `LogFormat`, `AltPrintf`). Division-based integer printing and its round trip,
  the format state machine against a directive-by-directive meaning, and the shift and mask printer, which agrees.
* **Interrupts** (`IrqSpec`, `IrqController`). Masking, nested brackets and dispatch over every run, with the handlers
  free to call anything they are allowed to; and the calls over the control registers.
* `Words` and `Errno` hold the 32-bit word and the error numbers.
* **Time of day**, **heap break** (`TimeOfDay`, `HeapBreak`), **player** and **VGA timing** (`PlayerMotion`,
  `VgaController`).

A file named `…Spec` holds functions on values, with the properties proved about all inputs and all runs; the classes
are proved equal to those functions, so that the properties hold of them.

## Where the code and its comments differ

The model follows the code.

* alt_fd_lock.c:43-45 promises a lock only for the sole descriptor of a device. The scan stops below the high-water
  mark, so the descriptor at the mark is not seen: `FdSpec.LockBesideAnother` is an example, and
  `FdSpec.LockGrantedIff` says exactly when the holder is alone. At most one holder per device still holds.
* alt_file.h:99-100 and alt_fd_lock.c:47 say that close() gives up a lock. It does if and only if the descriptor is
  above 2 (`FdSpec.CloseReleasesIff`), and a standard stream can hold a device (`FdSpec.StreamKeepsLock`).
* alt_alarm_start accepts every 32-bit delay. A delay of 2^32-1 expires on the next tick, except when it is started on
  the last tick before the counter wraps (`AlarmSpec.DelayIsExactIff`).
* alt_llist.h:111-113 makes a removed entry link to itself so that removing it again is harmless. alt_tick reads the link
  to the next alarm before it makes a callback. So a callback that stops that alarm, and does not start it again, leaves
  alt_tick on it for ever, calling it if it is due (`AlarmSpec.StoppingTheNextHangs`); `AlarmSpec.AlarmsAreExact` and
  `AlarmSpec.TickCallsExactlyTheDue` say that this is the only way for a tick not to end.
* settimeofday multiplies in 32 bits and gettimeofday in 64. They agree if and only if the product wrapped a multiple of
  15625 times (`TimeOfDay.GetAfterSetIff`, and an example in `TimeOfDay.SetIsOff`).
* gettimeofday can run backwards. At a rate below 10^6 that does not divide it, the last tick of the second second shows
  less than the first one; at one tick a second the time turns negative after 2^31 seconds. `TimeOfDay.MonotoneIff` and
  `TimeOfDay.AlwaysMonotoneIff` say that these are the only cases.
* alt_irq_enable and alt_irq_disable write IENABLE without the priority mask, which defeats an open bracket
  (`IrqSpec.EnableKeepsMaskIff`, `IrqSpec.DisableKeepsMaskIff`, `IrqSpec.RegisterKeepsMaskIff`, and what follows in
  `IrqSpec.EnableInsideBracket` and `IrqSpec.DisableInsideBracket`).
* alt_sbrk.c:46-48 says that no bounds are checked; the code checks the limit.
* VGA_controller.sv:88 and 101 put the pulses at pixels 656-752 and lines 490-491. They are low at pixels 656-751, and
  from pixel 1 of line 489 to pixel 0 of line 491.
* A blocking write of zero bytes returns -EIO, and a non-blocking one -EWOULDBLOCK.

## Model

| member | source | states |
|---|---|---|
| `UartTransmit.TransmitRefinement` | software/usb_kb_bsp/drivers/src/altera_avalon_jtag_uart_write.c:100-200 | For every interleaving of writes, closes, interrupts and alarm ticks: bytes sent to DATA, followed by the ring, are the concatenation of the prefixes the finished writes reported and the prefix the running write has taken; at most N-1 bytes are held; every result shorter than asked was given in non-blocking mode or with a recorded host_inactive that is not zero |
| `UartTransmit.ReturnsAreTrue` | software/usb_kb_bsp/drivers/src/altera_avalon_jtag_uart_write.c:146-202 | What the record of a call says was the case when it returned: in every run a write returns only by a foreground step, with the bytes taken so far, and fewer than asked only in non-blocking mode or in a state whose host_inactive is not zero; a close answers 0 only in a state with everything accepted sent or host_inactive at the time-out |
| `UartTransmit.StreamsOnlyGrow` | software/usb_kb_bsp/drivers/src/altera_avalon_jtag_uart_write.c:100-200 | From any reachable state on, nothing accepted is dropped, changed or reordered: what is sent and what is accepted only grow at their ends, and what is sent is a prefix of what is accepted |
| `UartTransmit.LiveBytesKept` | software/usb_kb_bsp/drivers/src/altera_avalon_jtag_uart_write.c:106-127 | No foreground step changes a byte the interrupt routine may still send, although the room was computed from a stale tx_out: the ring only grows at its end, and only when tx_in is published |
| `UartTransmit.SpinHasNoAliasing` | software/usb_kb_bsp/drivers/src/altera_avalon_jtag_uart_write.c:183-184 | While a write waits, tx_out equals its snapshot if and only if nothing has been sent since the snapshot, at which moment the ring was full |
| `UartTransmit.NoLostWakeup` | software/usb_kb_bsp/drivers/src/altera_avalon_jtag_uart_write.c:136-139 | Unless a write is between publishing and its kick, a non-empty ring has WE set; a waiting write has WE set and is released by the first interrupt that finds room in the device FIFO |
| `UartTransmit.WaitingWriteCompletes` | software/usb_kb_bsp/drivers/src/altera_avalon_jtag_uart_write.c:100-191 | A blocking write with the host there answers count once it has been interrupted, while it waits, with room in the device FIFO as often as it has bytes to go: each such interrupt lets it get on by a byte at least |
| `UartTransmit.CloseDrains` | software/usb_kb_bsp/drivers/src/altera_avalon_jtag_uart_init.c:241-254 | close returns from its first test only when every byte ever accepted has been sent, and from its second with 0 when host_inactive is at the time-out, or with -EWOULDBLOCK, in non-blocking mode only, when it is not |
| `UartTransmitWaits.WaitsOn` | software/usb_kb_bsp/drivers/src/altera_avalon_jtag_uart_write.c:183-184 | A blocking write on a full ring, and a blocking close on a ring not empty, does not return as long as the device has taken nothing, or not everything, and host_inactive is below the time-out, whatever interrupts come |
| `UartTransmitWaits.WaitEnds` | software/usb_kb_bsp/drivers/src/altera_avalon_jtag_uart_write.c:183-188 | Once that is no longer so, the call leaves its wait within four steps of its own, wherever interrupts come between: with host_inactive 0 a write goes on with the bytes it has left, otherwise it returns what it has done, or -EIO; a close returns 0 |
| `UartTransmit.Run` | software/usb_kb_bsp/drivers/src/altera_avalon_jtag_uart_init.c:117-197 | Every run of calls, foreground steps, interrupts and alarm ticks keeps the transmit invariant |
| `UartTransmit.ServiceEffect` | software/usb_kb_bsp/drivers/src/altera_avalon_jtag_uart_init.c:169-195 | One write service sends, in order, exactly the smaller of WSPACE and the ring length off the front of the ring, and clears WE exactly when room is left over |
| `UartTransmit.IsrEffect` | software/usb_kb_bsp/drivers/src/altera_avalon_jtag_uart_init.c:117-197 | The passes of one interrupt send, in order, the smaller of the ring length and the WSPACE of all passes with a write interrupt together, clear WE exactly when room is left over, and touch nothing the foreground owns |
| `UartReceive.ReceiveRefinement` | software/usb_kb_bsp/drivers/src/altera_avalon_jtag_uart_read.c:115-146 | For every interleaving: bytes given to all readers, followed by the ring, are the bytes of the DATA reads that the interrupts made: of each pass the leading valid ones for which there was room at the time, in order; at most N-1 are held; every positive result counts the bytes delivered |
| `UartReceive.ErrorsNeedAbsence` | software/usb_kb_bsp/drivers/src/altera_avalon_jtag_uart_read.c:173-202 | In every run, a blocking read of some space that answers an error made, during that very call, a spin that found host_inactive at or above the time-out |
| `UartReceiveWaits.WaitsOn` | software/usb_kb_bsp/drivers/src/altera_avalon_jtag_uart_read.c:177-178 | A blocking read that found the ring empty does not return as long as nothing arrives and host_inactive is below the time-out, whatever interrupts come |
| `UartReceiveWaits.WaitEnds` | software/usb_kb_bsp/drivers/src/altera_avalon_jtag_uart_read.c:177-202 | Once that is no longer so, the read leaves its wait within five steps of its own: it goes on to take what has arrived, or returns -EIO with RE as it was, having seen host_inactive at the time-out; never -EIO when something had arrived by then |
| `UartReceive.LooksAreTrue` | software/usb_kb_bsp/drivers/src/altera_avalon_jtag_uart_read.c:173-178 | The host_inactive recorded for each finished read, and for the one in progress, is the value that field had at a spin of that call |
| `UartReceive.StreamsOnlyGrow` | software/usb_kb_bsp/drivers/src/altera_avalon_jtag_uart_read.c:115-146 | From any reachable state on, nothing taken from the device is dropped or reordered: what is taken and what is delivered only grow at their ends, and what is delivered is a prefix of what is taken |
| `UartReceive.FullRingTakesNothing` | software/usb_kb_bsp/drivers/src/altera_avalon_jtag_uart_init.c:132-167 | With the ring full an interrupt pops nothing from the device, and a read interrupt then masks itself |
| `UartReceive.SpinHasNoAliasing` | software/usb_kb_bsp/drivers/src/altera_avalon_jtag_uart_read.c:173-178 | While a read waits, rx_in equals its snapshot if and only if nothing has arrived since, if and only if the ring is empty |
| `UartReceive.ShortReadsDrain` | software/usb_kb_bsp/drivers/src/altera_avalon_jtag_uart_read.c:120-146 | A read that stops short of its space had delivered every byte that had arrived when it last looked |
| `UartReceive.NoLostWakeup` | software/usb_kb_bsp/drivers/src/altera_avalon_jtag_uart_read.c:186-195 | With a device that reports RAVAIL 0 when RVALID is 0: between reads RE is off only while the ring holds bytes, so the next read takes some, and a read that takes bytes returns with RE on |
| `UartReceive.Run` | software/usb_kb_bsp/drivers/src/altera_avalon_jtag_uart_init.c:125-167 | Every run of reads, foreground steps, interrupts and alarm ticks keeps the receive invariant |
| `UartReceive.FillEffect` | software/usb_kb_bsp/drivers/src/altera_avalon_jtag_uart_init.c:125-167 | One read service appends to the ring the bytes of the leading valid reads of DATA, fifo[0].b, fifo[1].b and so on, as many as there are or as there is room for, changes nothing the reader owns, and masks RE exactly if the last RAVAIL it saw is not zero |
| `UartReceive.IsrEffect` | software/usb_kb_bsp/drivers/src/altera_avalon_jtag_uart_init.c:117-197 | All passes of one interrupt append those prefixes of their DATA reads one after the other, each cut to the room the passes before it left |
| `UartReceive.PoppedIsArrived` | software/usb_kb_bsp/drivers/src/altera_avalon_jtag_uart_init.c:117-167 | From any reachable state on, the bytes taken from the device over a run are the concatenation, over the passes that its interrupts made, of those prefixes of their DATA reads |
| `UartHardware.Arriving` | software/usb_kb_bsp/drivers/src/altera_avalon_jtag_uart_init.c:132-151 | The bytes one read service takes, told apart from how it takes them: those of the leading valid reads, one by one, until there is no room, no read left or an invalid one |
| `Ring.RoomIsFree` | software/usb_kb_bsp/drivers/src/altera_avalon_jtag_uart_write.c:109-117 | The three-case room is all the free slots or all up to the end of the array, whichever is less, and is zero if and only if N-1 bytes are held |
| `Ring.WrapIsRemainder` | software/usb_kb_bsp/drivers/src/altera_avalon_jtag_uart_write.c:126 | Advancing an index by at most one turn is the remainder by the buffer length |
| `Ring.PieceIsHeld` | software/usb_kb_bsp/drivers/src/altera_avalon_jtag_uart_read.c:125-131 | The two-case piece is all that is held or all up to the end of the array, whichever is less, and is zero if and only if the ring is empty |
| `Ring.StoreFree` | software/usb_kb_bsp/drivers/src/altera_avalon_jtag_uart_write.c:122 | A byte stored into a free slot is invisible to the consumer until the index moves |
| `Ring.Publish` | software/usb_kb_bsp/drivers/src/altera_avalon_jtag_uart_write.c:122-126 | Moving tx_in over n stored bytes appends exactly them |
| `Ring.Drop` | software/usb_kb_bsp/drivers/src/altera_avalon_jtag_uart_read.c:136-140 | Moving rx_out over n bytes removes exactly the first n held |
| `JtagUart.Uart.constructor` | software/usb_kb_bsp/drivers/src/altera_avalon_jtag_uart_init.c:66-100 | The driver starts with both rings empty, RE on and WE off, and an infinite time-out if the alarm could not be started |
| `JtagUart.Uart.ServiceRead` | software/usb_kb_bsp/drivers/src/altera_avalon_jtag_uart_init.c:125-167 | The in-place read half appends to the receive ring fifo[0].b, fifo[1].b and so on, up to the first invalid read or to a full ring, and is the fill of the receive machine |
| `JtagUart.Uart.ServiceWrite` | software/usb_kb_bsp/drivers/src/altera_avalon_jtag_uart_init.c:169-195 | The in-place write half writes to DATA the front of the transmit ring, the smaller of its length and WSPACE, takes that off the ring, masks WE exactly when room is left over, and is the service of the transmit machine |
| `JtagUart.Uart.Irq` | software/usb_kb_bsp/drivers/src/altera_avalon_jtag_uart_init.c:106-197 | The interrupt routine is one event of both machines and moves no foreground state; what it writes to DATA comes off the front of the transmit ring, as much as the passes have room for, and what it appends to the receive ring are the bytes of the DATA reads of its passes, as many as fit |
| `JtagUart.Uart.Timeout` | software/usb_kb_bsp/drivers/src/altera_avalon_jtag_uart_init.c:203-225 | The alarm callback is one event of both machines: host_inactive becomes 0 when AC is set and otherwise one more, up to INT_MAX - 2 |
| `UartHardware.HostGoesMissing` | software/usb_kb_bsp/drivers/src/altera_avalon_jtag_uart_init.c:203-225 | Once the alarm has gone off as often as the time-out without finding the host, host_inactive is at the time-out and not zero |
| `UartHardware.HostCounter` | software/usb_kb_bsp/drivers/src/altera_avalon_jtag_uart_init.c:203-225 | After any interrupts host_inactive is the smaller of INT_MAX - 2 and n + c, where n is the number of alarms without AC since the last one with AC, and c is 0 after such a one and the value at the start if there was none |
| `JtagUart.Uart.ReadTxOut` | software/usb_kb_bsp/drivers/src/altera_avalon_jtag_uart_write.c:106-120 | Computing n from the two indices is one step of the transmit machine |
| `JtagUart.Uart.StoreTxByte` | software/usb_kb_bsp/drivers/src/altera_avalon_jtag_uart_write.c:122 | Each byte of memcpy is one step of the transmit machine, so an interrupt may come between any two bytes |
| `JtagUart.Uart.PublishTxIn` | software/usb_kb_bsp/drivers/src/altera_avalon_jtag_uart_write.c:126 | Storing tx_in is one step of the transmit machine |
| `JtagUart.Uart.Write` | software/usb_kb_bsp/drivers/src/altera_avalon_jtag_uart_write.c:100-200 | Preempted at every shared access by any schedule, write returns k > 0 with exactly the first k bytes accepted, short only with O_NONBLOCK or host_inactive not zero; otherwise it returns -EWOULDBLOCK or -EIO with nothing accepted, -EIO of a non-empty request only with host_inactive not zero; if the host stays away for the time-out, it returns |
| `JtagUart.Uart.Close` | software/usb_kb_bsp/drivers/src/altera_avalon_jtag_uart_init.c:241-254 | Preempted by any schedule, close answers 0 with the ring empty and everything accepted sent, or with host_inactive at the time-out; any other answer is -EWOULDBLOCK in non-blocking mode before that; if the host stays away for the time-out, it returns |
| `JtagUart.Uart.SetTimeout` | software/usb_kb_bsp/drivers/src/altera_avalon_jtag_uart_ioctl.c:60-68 | A time-out out of range becomes the longest finite one, and an infinite one cannot be changed |
| `JtagUart.Uart.Read` | software/usb_kb_bsp/drivers/src/altera_avalon_jtag_uart_read.c:115-202 | Preempted at every shared access by any schedule, read returns k > 0 with the next k bytes that arrived, in order, and RE on; otherwise -EWOULDBLOCK or -EIO with nothing delivered, in blocking mode only after a spin of this call found host_inactive at or above the time-out; if the host stays away for the time-out, it returns |
| `AlarmSpec.AlarmsAreExact` | software/usb_kb_bsp/HAL/src/alt_tick.c:87-148 | Over every run of ticks, starts and stops, across any number of counter wraps: every tick ends if and only if no callback leaves the alarm next on the list stopped; and then the 32-bit scheduler makes the same calls at the same ticks as one with unbounded deadlines |
| `AlarmSpec.TickCallsExactlyTheDue` | software/usb_kb_bsp/HAL/src/alt_tick.c:100-141 | At every tick of such a run the loop of alt_tick ends if and only if no callback leaves the alarm next on the list stopped; then the alarms called are exactly those whose unbounded deadline is that tick and that no earlier callback of the tick stopped, in list order; no listed alarm is ever overdue |
| `AlarmSpec.FiredAreCalled` | software/usb_kb_bsp/HAL/src/alt_tick.c:100-141 | Under that condition the walk calls, in order, the due alarms registered at the start of the tick, once each, except those stopped before their turn, whatever else callbacks start or stop |
| `AlarmSpec.FiredAreDue` | software/usb_kb_bsp/HAL/src/alt_tick.c:100-141 | Where callbacks stop only themselves and alarms behind the walk, the calls are exactly those due in the unbounded schedule |
| `AlarmSpec.WalkRefines` | software/usb_kb_bsp/HAL/src/alt_tick.c:100-141 | The walk with 32-bit times and rollover flags is done with the calls and the list of the walk with unbounded deadlines, if every callback spares the alarm next on the list or starts it again; otherwise it is stuck on an alarm that is off the list, with the calls up to there |
| `AlarmSpec.ApplyRefines` | software/usb_kb_bsp/HAL/src/alt_tick.c:87-148 | Each start, stop or tick keeps, unless the tick gets stuck: time is the deadline modulo 2^32, and rollover is set exactly when the deadline lies in the next epoch |
| `AlarmSpec.LoopEndsIff` | software/usb_kb_bsp/HAL/src/alt_tick.c:100-141 | Pass by pass, the loop ends after some number of passes if and only if its walk does not get stuck, and then with what the walk has done |
| `AlarmSpec.StuckCallsStopped` | software/usb_kb_bsp/HAL/src/alt_tick.c:102-140 | A stuck loop stands on the same stopped alarm after any number of passes, and calls it, stopped as it is, if and only if its deadline is this tick |
| `AlarmSpec.StuckCalls` | software/usb_kb_bsp/HAL/src/alt_tick.c:102-140 | How often, in any number of passes, a stuck tick calls the stopped alarm: never if its deadline is later; once if it is due and asks to be called again; in every pass if it is due and no callback asks for that |
| `AlarmSpec.StoppingTheNextHangs` | software/usb_kb_bsp/HAL/src/alt_tick.c:102-140 | The failing input: two alarms due, the callback of the first stops the second; the tick never ends and calls the stopped one |
| `AlarmSpec.ArmedIsSet` | software/usb_kb_bsp/HAL/src/alt_alarm_start.c:80-96 | A delay of at most 2^32-2 ticks is stored with the right time and rollover flag for the deadline now + nticks + 1 |
| `AlarmSpec.ExpiredIsDue` | software/usb_kb_bsp/HAL/src/alt_tick.c:109-115 | The expiry condition holds if and only if the deadline is the present tick |
| `AlarmSpec.RearmedIsSet` | software/usb_kb_bsp/HAL/src/alt_tick.c:127-137 | A returned period below 2^32 re-arms the alarm for exactly this tick plus the period |
| `AlarmSpec.DelayIsExactIff` | software/usb_kb_bsp/HAL/src/alt_alarm_start.c:80-96 | A delay runs out after nticks + 1 ticks if and only if it is at most 2^32-2 or starts on the last tick before the counter wraps; otherwise it expires on the very next tick |
| `AlarmList.Timer.constructor` | software/usb_kb_bsp/HAL/src/alt_tick.c:58 | The head starts linked to itself |
| `AlarmList.Timer.Insert` | software/usb_kb_bsp/HAL/inc/sys/alt_llist.h:90-98 | A new entry becomes the first of a circular list that stays well formed; an entry that is on the list already makes the links from the head an endless loop |
| `AlarmList.Timer.Unlink` | software/usb_kb_bsp/HAL/inc/sys/alt_llist.h:105-117 | The entry is linked to itself, the rest stays well formed without it, and nothing else moves, also for an entry that is on no list |
| `AlarmList.Timer.Remove` | software/usb_kb_bsp/HAL/inc/sys/alt_llist.h:105-117 | The list loses exactly the entry; a second removal changes nothing |
| `AlarmList.Timer.Stop` | software/usb_kb_bsp/HAL/src/alt_tick.c:66-73 | Stopping is the removal of one alarm from the abstract list |
| `AlarmList.Timer.Start` | software/usb_kb_bsp/HAL/src/alt_alarm_start.c:64-112 | Without a clock -ENOTSUP, for NULL -EINVAL, and the list unchanged; otherwise the alarm, armed, is first on the list, and if it was waiting already the list is endless |
| `AlarmList.Timer.Process` | software/usb_kb_bsp/HAL/src/alt_tick.c:100-141 | After any number of passes the loop over the pointers is where the walk is after as many, and has made its calls, through callbacks that relink the list |
| `AlarmList.Timer.Visit` | software/usb_kb_bsp/HAL/src/alt_tick.c:104-139 | The loop body on an alarm that is on the list or off it: its flag, its call, its new time or removal, and nothing of other alarms but what the callback starts |
| `AlarmList.Timer.Pass` | software/usb_kb_bsp/HAL/src/alt_tick.c:102-140 | One pass of the loop body on the linked alarms is one pass of the walk: the link read before the callback is where it goes on, also when the callback has moved or removed that alarm |
| `AlarmList.Timer.Tick` | software/usb_kb_bsp/HAL/src/alt_tick.c:87-148 | alt_tick on the linked list ends with the counter, list and calls of the abstract tick; where the abstract tick hangs it has not ended after any number of passes, and stands on an alarm that is off the list |
| `AlarmList.WalkReturnsIff` | software/usb_kb_bsp/HAL/inc/sys/alt_llist.h:105-117 | From a saved successor the links lead back to the head if and only if that alarm is still listed; a removed one is linked to itself for ever, which is where a stuck tick stays |
| `FdSpec.MutualExclusion` | software/usb_kb_bsp/HAL/src/alt_fd_lock.c:54-75 | In every reachable table no two descriptors hold the same device exclusively, and a holder is an open device descriptor |
| `FdSpec.HeldMeansNoOpen` | software/usb_kb_bsp/HAL/src/alt_open.c:141-166 | While a device is held every open of it answers -1 with EACCES or EMFILE and leaves all descriptors alone |
| `FdSpec.HeldNeverGrows` | software/usb_kb_bsp/HAL/src/alt_open.c:105-171 | While a device is held no call puts another descriptor on it, redirection included, unless that redirects the holder's own slot successfully before the last |
| `FdSpec.RedirectedHolderLosesLock` | software/usb_kb_bsp/HAL/src/alt_io_redirect.c:58-72 | A standard stream that holds a device and is redirected to another loses it, and nobody holds the device |
| `FdSpec.UnlockLetsOpen` | software/usb_kb_bsp/HAL/src/alt_fd_unlock.c:52-56 | After TIOCNXCL on the holder an open of the device succeeds if and only if a descriptor is free and the driver agrees |
| `FdSpec.IoctlCases` | software/usb_kb_bsp/HAL/src/alt_ioctl.c:106-168 | On a negative or open descriptor: EBADFD for a negative one; TIOCNXCL on a device clears the exclusive flag of that descriptor and changes nothing else; any request but TIOCEXCL and TIOCNXCL, and any request on a file, is answered by the driver, or with ENOTTY if it has no ioctl, and changes nothing; errno is minus a negative answer |
| `FdSpec.FailedOpenRestores` | software/usb_kb_bsp/HAL/src/alt_open.c:159-166 | A failed open leaves the device and flags of every descriptor as they were |
| `FdSpec.LockGrantedIff` | software/usb_kb_bsp/HAL/src/alt_fd_lock.c:61-69 | TIOCEXCL is granted, and the device then held, if and only if no other descriptor below the high-water mark is on it; the holder is then alone if and only if the descriptor at the mark is itself or is on another device |
| `FdSpec.LockBesideAnother` | software/usb_kb_bsp/HAL/src/alt_fd_lock.c:43-64 | Two opens and a TIOCEXCL on the first leave another descriptor open on a held device |
| `FdSpec.CloseReleasesIff` | software/usb_kb_bsp/HAL/src/alt_release_fd.c:44-51 | Closing a holder gives up its lock if and only if the descriptor is above 2 |
| `FdSpec.CloseCases` | software/usb_kb_bsp/HAL/src/alt_close.c:64-101 | In every reachable table: close of an open descriptor above 2 frees it, the descriptors on its device are the earlier ones without it, and every other descriptor and the mark are as before; 0 to 2 are untouched; the result is -1 if and only if the argument is negative, with EBADFD, or the driver answers a negative status, with that as errno, and otherwise 0 |
| `FdSpec.CloseMakesRoom` | software/usb_kb_bsp/HAL/src/alt_release_fd.c:44-51 | After a close of a descriptor above 2 an open never answers EMFILE: it answers EACCES for a device that is held, the driver's error, or the first free descriptor |
| `FdSpec.StreamKeepsLock` | software/usb_kb_bsp/HAL/src/alt_io_redirect.c:85-94 | A standard stream does come to hold a device, and keeps it through a close: redirection to the device, TIOCEXCL, close |
| `FdSpec.OpenCases` | software/usb_kb_bsp/HAL/src/alt_open.c:105-171 | Every outcome of open in a reachable table: which error, which descriptor, and that errors move only the high-water mark |
| `FdSpec.ModeKeepsFlags` | software/usb_kb_bsp/HAL/inc/priv/alt_file.h:130-133 | Masking the two flag bits of the HAL off a flag word leaves the rest of it, whichever of them are set, and so all of O_RDONLY, O_WRONLY and O_RDWR |
| `FdSpec.OpenFdCases` | software/usb_kb_bsp/HAL/src/alt_io_redirect.c:58-72 | A redirection puts the stream on the named device or file, with the flags asked for, if that opens, and leaves it alone if not; every other descriptor is as before |
| `FdSpec.RedirectCases` | software/usb_kb_bsp/HAL/src/alt_io_redirect.c:85-94 | In every reachable table, each standard stream ends on what it was redirected to if that opens when its turn comes, stdin for reading and the others for writing, and otherwise stays where it was; every descriptor above 2 is as before |
| `FdSpec.Run` | software/usb_kb_bsp/HAL/src/alt_open.c:105-171 | Every sequence of open, close, ioctl and redirection keeps the table invariant, with the holder of a device below every other descriptor on it |
| `FdSpec.FirstFree` | software/usb_kb_bsp/HAL/src/alt_get_fd.c:77-89 | The first free descriptor: it is free and none before it is |
| `FdTable.Files.constructor` | software/usb_kb_bsp/HAL/src/alt_get_fd.c:54-101 | The table at start-up: three reserved descriptors, the rest free |
| `FdTable.Files.GetFd` | software/usb_kb_bsp/HAL/src/alt_get_fd.c:54-101 | The scan in place takes the first free descriptor and raises the mark, or answers -EMFILE |
| `FdTable.Files.ReleaseFd` | software/usb_kb_bsp/HAL/src/alt_release_fd.c:44-51 | Frees a descriptor above 2 and leaves 0 to 2 alone |
| `FdTable.Files.FileLocked` | software/usb_kb_bsp/HAL/src/alt_open.c:64-92 | The scan in place up to and including the mark decides whether another descriptor holds the device |
| `FdTable.Files.Open` | software/usb_kb_bsp/HAL/src/alt_open.c:105-171 | open in place is the table function, result and errno included |
| `FdTable.Files.Close` | software/usb_kb_bsp/HAL/src/alt_close.c:64-101 | For every descriptor that is negative or open: -1 exactly for a negative descriptor or driver status, with errno EBADFD or that status, and otherwise 0; a descriptor above 2 is free afterwards and nothing else in the array has changed. The other descriptors are those whose device pointer is followed unchecked |
| `FdTable.Files.Lock` | software/usb_kb_bsp/HAL/src/alt_fd_lock.c:54-75 | The scan in place, below the mark only, decides the lock |
| `FdTable.Files.Unlock` | software/usb_kb_bsp/HAL/src/alt_fd_unlock.c:52-56 | Clears the exclusive flag of one descriptor and nothing else |
| `FdTable.Files.Ioctl` | software/usb_kb_bsp/HAL/src/alt_ioctl.c:106-168 | ioctl in place routes TIOCEXCL and TIOCNXCL of devices to the lock and everything else to the driver, result and errno included, for the same descriptors as close |
| `FdTable.Files.OpenFd` | software/usb_kb_bsp/HAL/src/alt_io_redirect.c:58-72 | The temporary descriptor is copied and given back; a failure leaves the stream unchanged |
| `FdTable.Files.Redirect` | software/usb_kb_bsp/HAL/src/alt_io_redirect.c:85-94 | The three redirections in their order keep the table invariant |
| `LogPrintf.FieldReadsBack` | software/usb_kb_bsp/HAL/src/alt_log_printf.c:206-297 | Round trip: reading a printed field back in its base gives the number printed, for every 32-bit word, signed (the least integer included) or not, at every width |
| `LogPrintf.FieldLength` | software/usb_kb_bsp/HAL/src/alt_log_printf.c:257-280 | The field is as long as the larger of width and sign plus digits, ends in the digits, and has no superfluous leading digit |
| `LogPrintf.FieldIsLaid` | software/usb_kb_bsp/HAL/src/alt_log_printf.c:257-297 | A field reads back as the number, is as wide as asked if there is anything to fill, has zeros only after the sign and blanks only before it, and no superfluous leading digit |
| `LogPrintf.FieldCase` | software/usb_kb_bsp/HAL/src/alt_log_printf.c:284-291 | No field has a letter of the case that is not asked for |
| `Numerals.DigitsAreCanonical` | software/usb_kb_bsp/HAL/src/alt_log_printf.c:247-255 | The digits are worth the number, are below the base, and begin with 0 only for 0 |
| `LogPrintf.DigitsArePadded` | software/usb_kb_bsp/HAL/src/alt_log_printf.c:282-296 | Dividing by falling powers of the base from the largest place value yields the digits found by dividing by the base |
| `LogPrintf.CountDigits` | software/usb_kb_bsp/HAL/src/alt_log_printf.c:247-255 | The counting loop finds the number of digits and the place value of the first, which never leaves 32 bits |
| `LogPrintf.PrintDigit` | software/usb_kb_bsp/HAL/src/alt_log_printf.c:284-291 | The offset from the character 0 lands on the right digit or letter |
| `LogPrintf.PrintDigits` | software/usb_kb_bsp/HAL/src/alt_log_printf.c:281-296 | The digit loop prints the numeral |
| `LogPrintf.PrintLead` | software/usb_kb_bsp/HAL/src/alt_log_printf.c:257-280 | Zeros come after the sign, blanks before it |
| `LogPrintf.RepChar` | software/usb_kb_bsp/HAL/src/alt_log_printf.c:106-110 | Repeats a character, not at all for a count that is not positive |
| `LogPrintf.PrintInteger` | software/usb_kb_bsp/HAL/src/alt_log_printf.c:206-297 | The integer conversion in place prints the field of the word |
| `LogFormat.Printf` | software/usb_kb_bsp/HAL/src/alt_log_printf.c:114-341 | The character-by-character state machine prints what the format string means, directive by directive |
| `LogFormat.LettersMean` | software/usb_kb_bsp/HAL/src/alt_log_printf.c:202-335 | Per letter, without the parameters of the conversion: d and i print text that reads back in base 10 as the signed value of the word, u, o, x and X as its unsigned value in base 10, 8, 16 and 16, x without capitals and X without small letters, all padded to the width; c ends in the low byte after width - 1 blanks, s in the string after the missing blanks; any other letter prints nothing |
| `LogFormat.DirectivePrints` | software/usb_kb_bsp/HAL/src/alt_log_printf.c:114-341 | Any directive in any format prints what its letter means, for the next argument and the width its modifiers spell, and what follows goes on with the argument after that if the letter is one of d, i, u, o, x, X, c and s, and with the same argument if not |
| `LogFormat.WidthOfNumeral` | software/usb_kb_bsp/HAL/src/alt_log_printf.c:176-195 | A decimal numeral among the modifiers spells the width it is the numeral of, and no digits spell none |
| `LogFormat.UnfinishedPrintsNothing` | software/usb_kb_bsp/HAL/src/alt_log_printf.c:127-200 | A directive that the string ends in the middle of prints nothing |
| `LogFormat.Convert` | software/usb_kb_bsp/HAL/src/alt_log_printf.c:202-335 | Each letter prints what it means for the next argument, per letter as above; d, i, u, o, x, X, c and s take one argument, every other letter none and prints nothing |
| `LogFormat.ModifierRead` | software/usb_kb_bsp/HAL/src/alt_log_printf.c:170-199 | Reading one modifier leaves the meaning of the rest of a directive unchanged |
| `LogFormat.WidthSnoc` | software/usb_kb_bsp/HAL/src/alt_log_printf.c:176-195 | The width grown digit by digit is the number its digits before the point spell |
| `LogFormat.QuotedPrintsItself` | software/usb_kb_bsp/HAL/src/alt_log_printf.c:158-162 | A text with its per cent signs doubled prints itself, takes no argument, and leaves what follows unaffected |
| `AltPrintf.PrintfsAgree` | software/usb_kb_bsp/HAL/src/alt_printf.c:58-126 | On every format whose directives are unmodified letters that both printfs know or neither does, both print the same; above all, shift and mask and division print the same hexadecimal |
| `AltPrintf.LettersShow` | software/usb_kb_bsp/HAL/src/alt_printf.c:64-124 | In the small printf x prints text that reads back in base 16 as the number, without a leading zero, blank or capital, c the low byte and s the string, each taking one argument; two per cent signs print one; any other letter prints nothing and takes none |
| `AltPrintf.PrintHex` | software/usb_kb_bsp/HAL/src/alt_printf.c:82-111 | The shift and mask loops on 32-bit words print the hexadecimal numeral |
| `AltPrintf.NumberCounts` | software/usb_kb_bsp/HAL/src/alt_printf.c:85 | The number of a word is its unsigned value: 0 of zero and one more for each increment of the bits, up to 2^32-1 of all ones |
| `AltPrintf.EveryNumber` | software/usb_kb_bsp/HAL/src/alt_printf.c:85 | Every 32-bit number is the number of a word |
| `AltPrintf.NumberIsInjective` | software/usb_kb_bsp/HAL/src/alt_printf.c:85 | No two words have the same number |
| `AltPrintf.FirstDigit` | software/usb_kb_bsp/HAL/src/alt_printf.c:96-99 | For a word that is not zero the scan ends at a shift in range, on the first digit that is not zero |
| `AltPrintf.HexDigit` | software/usb_kb_bsp/HAL/src/alt_printf.c:104-108 | The masked and shifted bits are the digit at that place |
| `AltPrintf.NibblesAreDigits` | software/usb_kb_bsp/HAL/src/alt_printf.c:101-110 | Groups of four bits without leading zero are the digits found by division |
| `AltPrintf.Printf` | software/usb_kb_bsp/HAL/src/alt_printf.c:49-127 | The format loop prints what the format string means to the small printf |
| `IrqSpec.DispatchIsSafe` | software/usb_kb_bsp/HAL/src/alt_irq_handler.c:128-159 | In every run, an interrupt taken calls the lowest-numbered pending one, which has a handler and a smaller number than the handler it preempts |
| `IrqSpec.ReturnIsSafe` | software/usb_kb_bsp/HAL/src/alt_irq_handler.c:157-159 | So does each further pass of the dispatch loop; with nothing pending, interrupts are open again where the processor returns to |
| `IrqSpec.NestingIsPrioritised` | software/usb_kb_bsp/HAL/inc/priv/alt_legacy_irq.h:118-149 | Of two handlers under way the later has the smaller number, so at most 32 are; with the processor open to interrupts the innermost handler has an open bracket |
| `IrqSpec.BracketLetsThrough` | software/usb_kb_bsp/HAL/inc/priv/alt_legacy_irq.h:118-133 | In every run, when the handler of p opens a bracket, PIE is on, k is in IENABLE if and only if k is enabled and below p, and an interrupt among the asserted lines is taken if and only if one of them is such a k |
| `IrqSpec.NoBracketNoMask` | software/usb_kb_bsp/HAL/src/alt_irq_vars.c:40-44 | In every run, outside every bracket the mask holds all of 0 to 31 and IENABLE every enabled interrupt |
| `IrqSpec.EnabledIs` | software/usb_kb_bsp/HAL/src/alt_iic_isr_register.c:82-98 | After every run, an interrupt is enabled exactly if the last permitted call that named it enabled it, or registered a handler that is not NULL; its handler is the last one registered; and it is in IENABLE exactly if it is enabled and not masked |
| `IrqSpec.RegisterEnables` | software/usb_kb_bsp/HAL/src/alt_iic_isr_register.c:82-98 | On return the interrupt is enabled if and only if the handler is not NULL, and no other interrupt, handler, or PIE has changed |
| `IrqSpec.PairRestores` | software/usb_kb_bsp/HAL/inc/sys/alt_irq.h:113-159 | A disable/enable pair leaves PIE as at entry, whatever balanced calls and interrupts come in between |
| `IrqSpec.BracketRestores` | software/usb_kb_bsp/HAL/inc/priv/alt_legacy_irq.h:118-149 | Closing a bracket restores the mask, and IENABLE to the enabled interrupts under it |
| `IrqSpec.InterruptRestores` | software/usb_kb_bsp/HAL/src/alt_irq_handler.c:128-167 | Handling an interrupt to the end leaves mask, PIE and all open entries as they were |
| `IrqSpec.EnableKeepsMaskIff` | software/usb_kb_bsp/HAL/inc/priv/alt_legacy_irq.h:86-99 | alt_irq_enable keeps IENABLE equal to the enabled interrupts under the mask if and only if no enabled interrupt is masked |
| `IrqSpec.DisableKeepsMaskIff` | software/usb_kb_bsp/HAL/inc/priv/alt_legacy_irq.h:68-81 | alt_irq_disable keeps the same rule if and only if no interrupt that stays enabled is masked |
| `IrqSpec.RegisterKeepsMaskIff` | software/usb_kb_bsp/HAL/src/alt_iic_isr_register.c:90-97 | So does registration, which goes through one or the other |
| `IrqSpec.EnableInsideBracket` | software/usb_kb_bsp/HAL/inc/priv/alt_legacy_irq.h:86-99 | Inside a bracket it lets every enabled interrupt of whatever number preempt |
| `IrqSpec.DisableInsideBracket` | software/usb_kb_bsp/HAL/inc/priv/alt_legacy_irq.h:68-81 | Disabling an interrupt inside a bracket lets every other enabled one of whatever number preempt |
| `IrqSpec.InsideBracketIsReached` | software/usb_kb_bsp/HAL/inc/priv/alt_legacy_irq.h:118-133 | Such a state is reached by registering two handlers and taking one interrupt; disabling that one inside its bracket unmasks the other |
| `IrqSpec.StepKeepsInv` | software/usb_kb_bsp/HAL/inc/priv/alt_legacy_irq.h:68-149 | Every permitted call and every interrupt keeps: IENABLE is active under mask, every active interrupt has a handler, and the stack is prioritised |
| `IrqSpec.Run` | software/usb_kb_bsp/HAL/src/alt_irq_vars.c:40-44 | So does every run from reset |
| `IrqController.Controller.constructor` | software/usb_kb_bsp/HAL/src/alt_irq_vars.c:40-44 | Nothing enabled, nothing masked, no handlers |
| `IrqController.Controller.DisableAll` | software/usb_kb_bsp/HAL/inc/sys/alt_irq.h:113-123 | Returns the old status and clears PIE |
| `IrqController.Controller.EnableAll` | software/usb_kb_bsp/HAL/inc/sys/alt_irq.h:143-159 | Puts the given PIE back |
| `IrqController.Controller.Enable` | software/usb_kb_bsp/HAL/inc/priv/alt_legacy_irq.h:86-99 | The enabled set and IENABLE change together with interrupts off, and PIE is as before |
| `IrqController.Controller.Disable` | software/usb_kb_bsp/HAL/inc/priv/alt_legacy_irq.h:68-81 | The same for one interrupt fewer |
| `IrqController.Controller.Interruptible` | software/usb_kb_bsp/HAL/inc/priv/alt_legacy_irq.h:118-133 | PIE is on, the mask holds exactly 0 to priority - 1, k is in IENABLE if and only if k is enabled and 0 <= k < priority, and the old mask is returned; called with the number of the handler under way it is the machine's event |
| `IrqController.Controller.NonInterruptible` | software/usb_kb_bsp/HAL/inc/priv/alt_legacy_irq.h:139-149 | Closes interrupts and puts the given mask back, also in IENABLE; with the mask that the bracket was opened with it is the machine's event |
| `IrqController.Controller.Register` | software/usb_kb_bsp/HAL/src/alt_iic_isr_register.c:75-101 | Handler and enable bit change together with interrupts off; NULL disables; a number from 32 up answers -EINVAL and changes nothing, except that from 2^31 on the signed comparison lets it index outside the table |
| `IrqController.Scan` | software/usb_kb_bsp/HAL/src/alt_irq_handler.c:132-155 | For a non-empty set of pending interrupts the bit scan ends on the smallest |
| `IrqController.Handler` | software/usb_kb_bsp/HAL/src/alt_irq_handler.c:128-159 | The dispatch loop is the sequence of events of the abstract machine, and finishes only with nothing pending and interrupts open |
| `TimeOfDay.RoundTrip` | software/usb_kb_bsp/HAL/src/alt_gettod.c:89-112 | With a rate dividing 10^6: k ticks after the time is set to t, the clock shows exactly t plus k/rate seconds, if neither the counter nor the 32-bit product wraps |
| `TimeOfDay.GetAfterSetIff` | software/usb_kb_bsp/HAL/src/alt_settod.c:82-84 | At any rate and any tick counts, the clock shows t plus what elapsed if and only if the 32-bit product in settimeofday wrapped a multiple of 15625 times, and the seconds, before and after the carry, fit a signed word |
| `TimeOfDay.SetIsOff` | software/usb_kb_bsp/HAL/src/alt_settod.c:82-84 | About 72 minutes after reset at 1000 ticks a second the product has wrapped once, and the time set is not the time shown |
| `TimeOfDay.SetThenGet` | software/usb_kb_bsp/HAL/src/alt_settod.c:72-96 | Without such a wrap, setting the time and asking at once gives it back |
| `TimeOfDay.CutRestIff` | software/usb_kb_bsp/HAL/src/alt_settod.c:83-84 | Cutting the product to 32 bits keeps its remainder modulo 10^6 if and only if it wrapped a multiple of 15625 times |
| `TimeOfDay.ElapsedExact` | software/usb_kb_bsp/HAL/src/alt_gettod.c:91-93 | With a rate dividing 10^6, whole seconds and rest add up to exactly n ticks |
| `TimeOfDay.MonotoneIff` | software/usb_kb_bsp/HAL/src/alt_gettod.c:89-112 | For the first 2^31 seconds, the time shown never runs backwards if and only if the rate divides 10^6 or is above it |
| `TimeOfDay.AlwaysMonotoneIff` | software/usb_kb_bsp/HAL/src/alt_gettod.c:89-112 | Over all ticks the counter can hold it never does if and only if, besides, the rate is not 1 |
| `TimeOfDay.Clock.SetTimeOfDay` | software/usb_kb_bsp/HAL/src/alt_settod.c:72-96 | Without a clock -1 and ENOSYS and nothing changed; otherwise the reset time and the zone are stored |
| `TimeOfDay.Clock.Normalise` | software/usb_kb_bsp/HAL/src/alt_gettod.c:95-112 | The two loops give the same instant with microseconds below a second, the seconds wrapping as signed words do, or zero for an instant borrowed below zero |
| `TimeOfDay.Clock.GetTimeOfDay` | software/usb_kb_bsp/HAL/src/alt_gettod.c:79-123 | Without a clock -ENOTSUP; otherwise the normalised time and, if wanted, the zone |
| `HeapBreak.BlocksAreDisjoint` | software/usb_kb_bsp/HAL/src/alt_sbrk.c:68-95 | Over any sequence of requests that each keep the order, blocks are word-aligned, inside the heap and pairwise disjoint |
| `HeapBreak.RequestKeepsOrderIff` | software/usb_kb_bsp/HAL/src/alt_sbrk.c:76-95 | A request keeps the blocks in order if and only if it is refused, or grows the heap without wrapping an address, or is so negative that the address wraps downwards |
| `HeapBreak.LowHeapIsOrderly` | software/usb_kb_bsp/HAL/src/alt_sbrk.c:88 | In a heap below 2^31 all sequences of non-negative requests keep the order |
| `HeapBreak.GrantedIff` | software/usb_kb_bsp/HAL/src/alt_sbrk.c:76-95 | After any requests, a signed 32-bit request is granted if and only if the break moved from its word boundary, in 32 bits, is not above the limit, with the block between the two; a refused one loses only the alignment |
| `HeapBreak.BreakMovesByGrants` | software/usb_kb_bsp/HAL/src/alt_sbrk.c:76-95 | Conservation after any requests: the break has moved by the bytes granted, less those given back, and at most three bytes for each request |
| `HeapBreak.ShrinkingOverlaps` | software/usb_kb_bsp/HAL/src/alt_sbrk.c:88-95 | After any requests, one that gives memory back exposes an earlier block, so that some later request is granted bytes of it, if and only if the word boundary from the new break is below the block's end and the block starts below the limit and within reach of one request |
| `HeapBreak.OverlapHappens` | software/usb_kb_bsp/HAL/src/alt_sbrk.c:88-95 | It happens: 8 bytes, 8 given back, 4 bytes; the last block lies in the first |
| `HeapBreak.Heap.Sbrk` | software/usb_kb_bsp/HAL/src/alt_sbrk.c:68-136 | The call in place: the address of the block appended, or -1 with none |
| `PlayerMotion.BoxInvariant` | Player.sv:24-54 | For every sequence of keys and resets: 3 <= X <= 636, 3 <= Y <= 476, at most one motion component is non-zero, and the 10-bit positions add without wrapping |
| `PlayerMotion.BoxIsTight` | Player.sv:56-203 | Each of the four bounds is met, one pixel outside the edge the logic looks for |
| `PlayerMotion.NextKeepsInv` | Player.sv:24-203 | Each clock keeps the strengthened invariant: off the edge the motion points back, and a sprite on an edge column still moving outwards is on a row where the vertical edges are off |
| `PlayerMotion.NextMotionCases` | Player.sv:56-203 | In every reachable state the next motion is one step back from the edge the sprite is on, the vertical edges first; inside, one step where the key w, a, s or d points; with no such key, the motion as it was. Reset puts the sprite at rest in the centre |
| `PlayerMotion.HoldingMoves` | Player.sv:24-203 | Holding a key from reset moves the sprite in a straight line, one frame late, up to the edge |
| `PlayerMotion.Player.Clock` | Player.sv:24-54 | The registers follow the machine and stay in the box |
| `VgaController.ClosedForm` | VGA_controller.sv:62-113 | At every moment after a reset: DrawX and DrawY are the pixel clocks modulo line and frame, hs is low exactly at 656 to 751, vs exactly in the clock after one on line 489 or 490 |
| `VgaController.PixelOncePerFrame` | VGA_controller.sv:62-86 | Of any 420000 successive pixel clocks exactly one draws a given pixel |
| `VgaController.HsyncPulse` | VGA_controller.sv:89-101 | hs is low for one run of 96 pixel clocks in each line, 16 after the last pixel displayed |
| `VgaController.VsyncPulse` | VGA_controller.sv:103-113 | vs is low for one run of 1600 pixel clocks in each frame |
| `VgaController.DisplayIff` | VGA_controller.sv:116-122 | In every frame the display is on at the positions of the 640 by 480 pixels and no others, and never during a sync pulse |
| `VgaController.Controller.Clock` | VGA_controller.sv:52-113 | One clock edge in place: the divided clock, the counters and the two pulses |

## Left out

- USB host code, the hpi_io_intf bridge and the modules described only in the repository's README: constant register writes, or source that is not there.
- SRAM_Controller.sv, GameController.sv, HexDriver.sv, Color_Mapper8Bit.sv and other tables and multiplexers: only easy facts.
- The SMALL driver, direct drivers, the uC/OS-II build, ALTERA_AVALON_JTAG_UART_IGNORE_FIFO_FULL_ERROR, stack checking and the interrupt vector custom instruction: other builds.
- Semaphores, event flags, logging macros and the dummy reads that clear an interrupt: they expand to nothing or have no effect on the state modelled.
- The UART device: what its registers read is arbitrary input, an interrupt makes finitely many passes, and a pass after the list of DATA reads finds the FIFO empty.
- JtagUart.Uart.Write: with a host that comes back, whether a spin ends depends on the device draining, which is not modelled; `UartTransmit.WaitingWriteCompletes` says that as many interrupts with room as there are bytes to go are enough.
- JtagUart.Uart.Read: the caller's buffer is a returned sequence, not memory, so aliasing with the ring is not modelled; and the same holds of spins.
- UartTransmit.LiveBytesKept: tx_in and rx_out are not volatile (altera_avalon_jtag_uart.h:99-112), nor is host_inactive; that the bytes of memcpy are stored before the index, and that the spins read host_inactive each time, is taken from the order of the statements and is up to the compiler.
- JtagUart.Uart.SetTimeout: TIOCGCONNECTED, which only reads, is not modelled; foreground calls of one direction are not interleaved with each other, since the semaphores that would serialise tasks are absent in this build.
- AlarmSpec.AlarmsAreExact: an alarm that is waiting is not started again (`AlarmList.Timer.Start` says what comes of it), a callback does not start its own alarm, and does all its stops before its starts; what follows a tick that has got stuck is that tick only, and `AlarmSpec.StuckCalls` says which calls it makes.
- FdSpec.Run: the results of driver callbacks are arbitrary; the priv field, fcntl and alt_find_dev are not modelled; calls on descriptors that are free or out of range are skipped.
- FdTable.Files.Close: what following the device pointer of a free or out-of-range descriptor does is not modelled; likewise in FdTable.Files.Ioctl.
- FdTable.Files.Open: the flag word is held as two bits and the remaining mode, not as a 32-bit word.
- LogFormat.Printf: the width is an unbounded integer, where the code overflows a signed int for widths of ten digits or more; arguments are an endless list of words, since va_arg past the last one is not defined; the polling of the port before each character is not modelled.
- LogPrintf.PrintInteger: int and long are both 32 bits, as on Nios II, so the l modifier changes nothing.
- AltPrintf.PrintHex: 0xF << shift is a table of the eight masks that the loop uses, and >> likewise.
- IrqSpec.Run: registers are sets of interrupt numbers; the lines that caused an interrupt are still asserted when the dispatch loop first reads them, without which its bit scan does not end; handlers are arbitrary sequences of permitted calls, and the register save and restore of the exception entry is assembly that is not modelled.
- IrqController.Controller.Register: what a table write below the start of the table changes is not modelled.
- TimeOfDay.Clock.Normalise: a signed second count that overflows is taken to wrap, as the processor adds, although C leaves it undefined.
- HeapBreak.BlocksAreDisjoint: the word at the limit lies in the address space; ALT_MAX_HEAP_BYTES and the interrupt lock around the call are not modelled.
- VgaController.ClosedForm: the period before the first reset, whose register values are unknown, is not modelled.
- The color mapper, the pixel data path and the game state input of the player, which its logic ignores.
