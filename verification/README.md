# Verified model of a Nios II board support package

This project models the runtime of a Nios II system-on-chip game, the bundled hardware
abstraction layer, in Dafny and proves what its parts promise.

* **JTAG UART driver** (`Ring`, `JtagUart`). Two 2048-byte circular buffers are shared, without a
  lock, between foreground calls and an interrupt handler. `JtagUart.Uart` holds the driver's
  fields and the device's; foreground calls run `Interrupts` between any two accesses to what
  they share with the handler and the callback, also between the bytes of a copy and before they
  return, and the hardware moves between any two register accesses. The ghost fields `accepted`,
  `delivered` and `stream` are the histories the two directions are compared with, and `looks` is that
  of what foreground code can see: how full the buffers are and the inactivity count. `Quiescent` is
  what holds between calls: both directions are FIFOs, and an interrupt is off only when it is not
  needed. `Session` is any program of such calls.
* **Alarms** (`AlarmTime`, `AlarmList`, `AlarmSpec`, `AlarmWalks`, `AlarmRuns`, `Alarms`). `AlarmTime` is the
  arithmetic of a wrapping 32-bit tick counter and one rollover bit, compared with an unbounded
  tick count. `AlarmSpec` says what starts, stops and the walk of a tick do to a plain sequence of
  alarms, with callbacks that act as a script says; `AlarmWalks` proves what follows for single
  ticks and `AlarmRuns` for whole runs. `AlarmList` is the linked list, and `Alarms` the code that
  updates it in place, proved against `AlarmSpec`. `Common` holds declarations that several modules
  share.
* **File descriptors** (`FdSpec`, `FdPool`). `FdSpec` says what each call does to the pool and
  proves what holds over whole runs; `FdPool` is the array code, proved against it.
* **Integer printing** (`Numerals`, `IntPrint`), **wall clock** (`Clock`), **heap** (`Heap`),
  **interrupt dispatch** (`IrqDispatch`) and **VGA timing** (`Vga`). `Arithmetic` holds facts about
  products and quotients that several of them use.

`dafny verify dfyconfig.toml` checks the whole project.

## Where the code and its description differ

* `alt_fd_lock` promises a lock only to the one user of a device, but its scan stops before the
  high-water mark. `FdSpec.LockSoundIff` gives the exact condition, `FdSpec.HiddenReachable` a run
  that meets it. At most one descriptor per device holds a lock all the same (`FdSpec.RunInv`).
* A second `TIOCEXCL` by the holder of a lock is refused, though the lock stays held, if the scan finds
  another user: `FdSpec.LockReportIff` gives the exact condition for the answer to be right.
* `alt_alarm_start` with 2^32 - 1 ticks fires at the next tick, unless the counter is about to wrap
  (`AlarmTime.ExactIff`, and over whole runs `AlarmRuns.StartedRunIff`).
* `settimeofday` multiplies ticks in 32 bits and `gettimeofday` in 64, so a set late after reset does
  not come back: `Clock.ImmediateIff` and `Clock.ElapsedIff` say exactly when, `Clock.ImmediateFails`
  gives an input. Only the time zero can come back by accident.
* The profiler's slab allocator uses the result of `sbrk` unchecked: `Heap.Allocator.Allocate` says
  exactly when, `Heap.FirstRequest` gives heaps in which it hands out memory it does not own.
* A callback that starts its own alarm again and then returns a period delays it by both, if the sum
  lies less than 2^32 ticks ahead (`AlarmTime.RearmTracks`); if it returns zero, the alarm is stopped
  all the same.
* `alt_alarm_stop` puts no condition on when it is called, but if the alarm that a walk visits next is
  not linked when the callback returns, the walk comes back to that alarm until the alarm's own
  callback, should it be due, has started it again. `AlarmWalks.StopNextIff` says exactly when a
  callback's acts have this effect, `AlarmWalks.ReturnsIff` exactly when the walk comes back to the
  list, and `AlarmWalks.StopNextFails` gives an input. The theorems about whole runs need no more than
  that every tick ends; those that say `TidyTick` need callbacks that do not stop the next alarm.
* A write of no bytes returns an error code, never 0, like a write that could send nothing.

## Assumptions

The device reports a read interrupt only with RE set and data in its FIFO, a write interrupt only
with WE set and space, and RVALID = 0 together with RAVAIL = 0. The host sends a finite stream. The
structure declares `host_inactive`, `irq_enable`, `tx_in` and `rx_out` without `volatile`
(`altera_avalon_jtag_uart.h:96-112`), unlike `rx_in` and `tx_out`; the model takes program order and a
fresh read of each at every use. An alarm is not started while it is linked, nor stopped before it was
ever started; what a callback does against this is passed over in the model. `close` and `ioctl` get
negative or open descriptors. `time_t` and `suseconds_t` are 32 bits wide (the C library's headers are
not part of this model), and a time set and its elapsed seconds fit them. Slab requests are multiples
of 4, as the two record sizes are, and the heap lies below 2^31, as in the linker script. The
dispatcher is entered with an interrupt pending.

## Model

| member | source | states |
|---|---|---|
| `Ring.Room` | final_project_503/final_project_503/final_project_502/final_project502/final_project_428/software/final_proj_bsp/drivers/src/altera_avalon_jtag_uart_write.c:105-117 | The room a writer computes from its two indices never reaches past the end of the buffer or into unsent bytes, and is zero exactly when the buffer is full |
| `Ring.Supply` | final_project_503/final_project_503/final_project_502/final_project502/final_project_428/software/final_proj_bsp/drivers/src/altera_avalon_jtag_uart_read.c:122-131 | The byte count a reader computes is contiguous and really there, and is zero exactly when the buffer is empty |
| `Ring.WindowFrame` | final_project_503/final_project_503/final_project_502/final_project502/final_project_428/software/final_proj_bsp/drivers/src/altera_avalon_jtag_uart_write.c:122-122 | Copying into slots behind the published ones does not change what the handler will send |
| `Ring.WindowExtend` | final_project_503/final_project_503/final_project_502/final_project502/final_project_428/software/final_proj_bsp/drivers/src/altera_avalon_jtag_uart_write.c:122-126 | Publishing n copied slots appends exactly their contents, also when the index wraps to 0 |
| `Ring.WindowPush` | final_project_503/final_project_503/final_project_502/final_project502/final_project_428/software/final_proj_bsp/drivers/src/altera_avalon_jtag_uart_init.c:137-150 | Storing a byte and stepping the input index appends that byte |
| `Ring.WindowDrop` | final_project_503/final_project_503/final_project_502/final_project502/final_project_428/software/final_proj_bsp/drivers/src/altera_avalon_jtag_uart_read.c:136-140 | Copying out and advancing the output index removes exactly the n oldest bytes, in order |
| `Ring.StillFull` | final_project_503/final_project_503/final_project_502/final_project502/final_project_428/software/final_proj_bsp/drivers/src/altera_avalon_jtag_uart_write.c:183-184 | A busy-waiting writer's stale snapshot equals the live index exactly if no byte has left: the index cannot come all the way round |
| `Ring.StillEmpty` | final_project_503/final_project_503/final_project_502/final_project502/final_project_428/software/final_proj_bsp/drivers/src/altera_avalon_jtag_uart_read.c:173-178 | A busy-waiting reader's comparison of indices is true exactly if nothing has arrived |
| `JtagUart.Uart.constructor` | final_project_503/final_project_503/final_project_502/final_project502/final_project_428/software/final_proj_bsp/drivers/src/altera_avalon_jtag_uart_init.c:66-96 | The driver starts quiescent: buffers empty, receive interrupts on |
| `JtagUart.Uart.ReadControl` | final_project_503/final_project_503/final_project_502/final_project502/final_project_428/software/final_proj_bsp/drivers/inc/altera_avalon_jtag_uart_regs.h:54-71 | RI is reported only with RE set and data in the receive FIFO, WI only with WE set and space; the space field is the free part of the transmit FIFO |
| `JtagUart.Uart.ReadData` | final_project_503/final_project_503/final_project_502/final_project502/final_project_428/software/final_proj_bsp/drivers/inc/altera_avalon_jtag_uart_regs.h:36-49 | RVALID tells whether a byte was popped, and an invalid read reports nothing available |
| `JtagUart.Uart.WriteData` | final_project_503/final_project_503/final_project_502/final_project502/final_project_428/software/final_proj_bsp/drivers/src/altera_avalon_jtag_uart_init.c:176-176 | A byte is written only with room in the hardware FIFO, and joins it at the end |
| `JtagUart.Uart.ReceiveByte` | final_project_503/final_project_503/final_project_502/final_project502/final_project_428/software/final_proj_bsp/drivers/src/altera_avalon_jtag_uart_init.c:137-150 | A byte is popped only when there is a slot for it, and is then stored at the end of the buffer |
| `JtagUart.Uart.ReceiveTurn` | final_project_503/final_project_503/final_project_502/final_project502/final_project_428/software/final_proj_bsp/drivers/src/altera_avalon_jtag_uart_init.c:132-150 | A turn of the receive loop stops without touching the FIFO when the buffer is full, or with the FIFO empty; otherwise exactly one byte has moved |
| `JtagUart.Uart.ReceiveBytes` | final_project_503/final_project_503/final_project_502/final_project502/final_project_428/software/final_proj_bsp/drivers/src/altera_avalon_jtag_uart_init.c:130-154 | The receive loop terminates though bytes keep arriving; it ends with data reported available only if the buffer is full, and otherwise with the hardware FIFO empty, having moved a byte |
| `JtagUart.Uart.DrainRx` | final_project_503/final_project_503/final_project_502/final_project502/final_project_428/software/final_proj_bsp/drivers/src/altera_avalon_jtag_uart_init.c:125-167 | The handler's receive half clears RE only with the buffer full, and otherwise empties the hardware FIFO, moving at least a byte |
| `JtagUart.Uart.SendBytes` | final_project_503/final_project_503/final_project_502/final_project502/final_project_428/software/final_proj_bsp/drivers/src/altera_avalon_jtag_uart_init.c:172-184 | The transmit loop stops with the space used up or the buffer empty, and never overfills the hardware FIFO |
| `JtagUart.Uart.FeedTx` | final_project_503/final_project_503/final_project_502/final_project502/final_project_428/software/final_proj_bsp/drivers/src/altera_avalon_jtag_uart_init.c:169-195 | The handler's transmit half sends the min(space, waiting) oldest bytes in order and clears WE exactly if the space exceeded the bytes waiting |
| `JtagUart.Uart.Pass` | final_project_503/final_project_503/final_project_502/final_project502/final_project_428/software/final_proj_bsp/drivers/src/altera_avalon_jtag_uart_init.c:113-196 | A pass of the handler's outer loop either ends it, with nothing reported, or lowers the sum of bytes the host has left, bytes to send, RE and WE |
| `JtagUart.Uart.Isr` | final_project_503/final_project_503/final_project_502/final_project502/final_project_428/software/final_proj_bsp/drivers/src/altera_avalon_jtag_uart_init.c:111-197 | The handler's outer loop terminates from every state, only when the device reports nothing more to do, and keeps both streams intact and both directions awake |
| `JtagUart.Uart.Timeout` | final_project_503/final_project_503/final_project_502/final_project502/final_project_428/software/final_proj_bsp/drivers/src/altera_avalon_jtag_uart_init.c:203-225 | The host-presence callback zeroes the idle count and clears the activity bit if there was activity, and otherwise counts up to a limit |
| `JtagUart.InactiveIff` | final_project_503/final_project_503/final_project_502/final_project502/final_project_428/software/final_proj_bsp/drivers/src/altera_avalon_jtag_uart_init.c:210-222 | The count after any seconds of activity and inactivity has reached a limit exactly if the last seconds, as many as the limit says, were all without activity, for every limit up to INT_MAX - 2; a higher one is never reached |
| `JtagUart.Uart.Interrupts` | final_project_503/final_project_503/final_project_502/final_project502/final_project_428/software/final_proj_bsp/drivers/src/altera_avalon_jtag_uart_init.c:106-225 | Any number of handler entries and callbacks between two steps moves bytes only forward, leaves the foreground's indices and the transmit buffer alone, and never loses a needed enable |
| `JtagUart.Uart.EnableTx` | final_project_503/final_project_503/final_project_502/final_project502/final_project_428/software/final_proj_bsp/drivers/src/altera_avalon_jtag_uart_write.c:136-139 | Sets WE in the shadow and the device, in one step |
| `JtagUart.Uart.EnableRx` | final_project_503/final_project_503/final_project_502/final_project502/final_project_428/software/final_proj_bsp/drivers/src/altera_avalon_jtag_uart_read.c:191-194 | Sets RE in the shadow and the device, in one step |
| `JtagUart.Uart.PutByte` | final_project_503/final_project_503/final_project_502/final_project502/final_project_428/software/final_proj_bsp/drivers/src/altera_avalon_jtag_uart_write.c:122-122 | After any interrupts the next byte joins the copied part of the chunk and no unsent byte changes |
| `JtagUart.Uart.CopyIn` | final_project_503/final_project_503/final_project_502/final_project502/final_project_428/software/final_proj_bsp/drivers/src/altera_avalon_jtag_uart_write.c:122-122 | The copy, interrupted at every byte, leaves exactly the chunk in the slots and never touches an unsent byte |
| `JtagUart.Uart.Publish` | final_project_503/final_project_503/final_project_502/final_project502/final_project_428/software/final_proj_bsp/drivers/src/altera_avalon_jtag_uart_write.c:124-126 | Publishing appends the copied chunk to the bytes waiting, and never makes the input index meet the output index |
| `JtagUart.Uart.FillOnce` | final_project_503/final_project_503/final_project_502/final_project502/final_project_428/software/final_proj_bsp/drivers/src/altera_avalon_jtag_uart_write.c:105-126 | With a snapshot that may be stale, one turn accepts a prefix of the data; it accepts nothing only if the buffer was full |
| `JtagUart.Uart.Fill` | final_project_503/final_project_503/final_project_502/final_project502/final_project_428/software/final_proj_bsp/drivers/src/altera_avalon_jtag_uart_write.c:103-127 | The inner loop accepts at least as many bytes as there was room for at its start |
| `JtagUart.Uart.PollSent` | final_project_503/final_project_503/final_project_502/final_project502/final_project_428/software/final_proj_bsp/drivers/src/altera_avalon_jtag_uart_write.c:183-183 | A turn of the busy-wait is in vain, and the wait goes on, exactly if its first look still finds the buffer full and its second finds host_inactive below the timeout |
| `JtagUart.Uart.AwaitSent` | final_project_503/final_project_503/final_project_502/final_project502/final_project_428/software/final_proj_bsp/drivers/src/altera_avalon_jtag_uart_write.c:183-184 | The busy-wait ends only with room in the buffer, or after host_inactive has been at least the timeout in it; every turn but the last was in vain, and that one too if the turns are used up: a wait that sees a byte leave is over |
| `JtagUart.Uart.WaitRound` | final_project_503/final_project_503/final_project_502/final_project502/final_project_428/software/final_proj_bsp/drivers/src/altera_avalon_jtag_uart_write.c:183-188 | When the wait is over, the call goes on exactly if the look at host_inactive finds zero; turns that are used up have all found the buffer full and the host there |
| `JtagUart.Uart.Round` | final_project_503/final_project_503/final_project_502/final_project502/final_project_428/software/final_proj_bsp/drivers/src/altera_avalon_jtag_uart_write.c:100-191 | A turn of the outer loop leaves no wakeup lost, and ends the call only if all is sent, the call is non-blocking or host_inactive was non-zero in it; it repeats only after host_inactive was found zero and a byte left or the timeout passed; all busy-wait turns but one were in vain |
| `JtagUart.Uart.SendTurn` | final_project_503/final_project_503/final_project_502/final_project502/final_project_428/software/final_proj_bsp/drivers/src/altera_avalon_jtag_uart_write.c:100-191 | Each round after the first accepts a byte, unless the wait before it found the host inactive for the timeout, and the turns spent in all rounds are accounted for |
| `JtagUart.Uart.SendRounds` | final_project_503/final_project_503/final_project_502/final_project502/final_project_428/software/final_proj_bsp/drivers/src/altera_avalon_jtag_uart_write.c:98-191 | The outer loop terminates and leaves what any number of rounds leave: the number of bytes accepted, the turns spent and the rounds they were spent in are in step |
| `JtagUart.Uart.SendAll` | final_project_503/final_project_503/final_project_502/final_project502/final_project_428/software/final_proj_bsp/drivers/src/altera_avalon_jtag_uart_write.c:98-193 | The outer loop accepts a prefix of the data in order, at least the room at its start, and stops short in blocking mode only if host_inactive was non-zero meanwhile; it waits no more often than bytes are accepted beyond the room there was at first, once more, and once for every look that found the host inactive for the timeout |
| `JtagUart.Uart.Write` | final_project_503/final_project_503/final_project_502/final_project502/final_project_428/software/final_proj_bsp/drivers/src/altera_avalon_jtag_uart_write.c:84-215 | Under every interleaving: a positive return is exactly the number of bytes accepted, a prefix of the data that joins the transmit stream in order; at least the room at the call is used; a blocking call gives up only if host_inactive was non-zero at some look of the call; it uses up the modelled turns only with data left and by waits of which every turn but one found the buffer full and host_inactive below the timeout, one wait for each byte accepted beyond the room at the call, one more, and one for each look at a host inactive for the timeout, or a single one if host_inactive was never zero; no wakeup is lost |
| `JtagUart.Uart.CopyOut` | final_project_503/final_project_503/final_project_502/final_project502/final_project_428/software/final_proj_bsp/drivers/src/altera_avalon_jtag_uart_read.c:136-136 | The copy, interrupted at every byte, yields the oldest bytes of the buffer although the handler stores behind them |
| `JtagUart.Uart.Release` | final_project_503/final_project_503/final_project_502/final_project502/final_project_428/software/final_proj_bsp/drivers/src/altera_avalon_jtag_uart_read.c:138-140 | Advancing the output index removes exactly the bytes copied |
| `JtagUart.Uart.TakeOnce` | final_project_503/final_project_503/final_project_502/final_project502/final_project_428/software/final_proj_bsp/drivers/src/altera_avalon_jtag_uart_read.c:122-140 | With a snapshot that may be stale, one turn delivers the next bytes of the stream; it delivers none only if the buffer was empty |
| `JtagUart.Uart.Take` | final_project_503/final_project_503/final_project_502/final_project502/final_project_428/software/final_proj_bsp/drivers/src/altera_avalon_jtag_uart_read.c:120-142 | The inner loop delivers at least min(space, bytes waiting at its start), across the wrap |
| `JtagUart.Uart.PollReceived` | final_project_503/final_project_503/final_project_502/final_project502/final_project_428/software/final_proj_bsp/drivers/src/altera_avalon_jtag_uart_read.c:173-173 | A turn of the busy-wait is in vain, and the wait goes on, exactly if its first look still finds the buffer empty and its second finds host_inactive below the timeout |
| `JtagUart.Uart.AwaitReceived` | final_project_503/final_project_503/final_project_502/final_project502/final_project_428/software/final_proj_bsp/drivers/src/altera_avalon_jtag_uart_read.c:173-174 | The busy-wait ends with nothing received only if host_inactive was at least the timeout in it; every turn but the last was in vain, and that one too if the turns are used up |
| `JtagUart.Uart.AwaitMore` | final_project_503/final_project_503/final_project_502/final_project502/final_project_428/software/final_proj_bsp/drivers/src/altera_avalon_jtag_uart_read.c:173-178 | After the wait the read goes on only with bytes in the buffer, and ends only if host_inactive reached the timeout; turns that are used up have all found the buffer empty |
| `JtagUart.Uart.FetchTurn` | final_project_503/final_project_503/final_project_502/final_project502/final_project_428/software/final_proj_bsp/drivers/src/altera_avalon_jtag_uart_read.c:115-179 | A turn of the outer loop delivers what there is, or repeats, or ends an empty blocking call only if host_inactive reached the timeout during it, or uses its busy-wait turns up, each of them in vain |
| `JtagUart.Uart.Fetch` | final_project_503/final_project_503/final_project_502/final_project502/final_project_428/software/final_proj_bsp/drivers/src/altera_avalon_jtag_uart_read.c:115-179 | The outer loop comes back with nothing from a blocking call only if host_inactive reached the timeout during the call, and uses up the modelled turns only if each of them, one after the other, was in vain |
| `JtagUart.Uart.Resume` | final_project_503/final_project_503/final_project_502/final_project502/final_project_428/software/final_proj_bsp/drivers/src/altera_avalon_jtag_uart_read.c:188-195 | Turning receive interrupts on again leaves no wakeup lost in either direction |
| `JtagUart.Uart.Read` | final_project_503/final_project_503/final_project_502/final_project502/final_project_428/software/final_proj_bsp/drivers/src/altera_avalon_jtag_uart_read.c:101-203 | Under every interleaving: the bytes returned continue the host's stream where the last call stopped; at least min(space, bytes waiting at the call) are returned; a blocking call returns nothing only if host_inactive reached the timeout during it, and uses up the modelled turns only with nothing there at the call and if each of them found the buffer empty and host_inactive below the timeout; no wakeup is lost |
| `JtagUart.Uart.Draining` | final_project_503/final_project_503/final_project_502/final_project502/final_project_428/software/final_proj_bsp/drivers/src/altera_avalon_jtag_uart_init.c:247-247 | The loop condition of close is true exactly if its first look finds bytes to send and its second finds host_inactive below the timeout |
| `JtagUart.Uart.Drain` | final_project_503/final_project_503/final_project_502/final_project502/final_project_428/software/final_proj_bsp/drivers/src/altera_avalon_jtag_uart_init.c:247-251 | The loop ends with its condition false, or at once for a non-blocking call, or with the modelled turns used up, each of which found the condition true |
| `JtagUart.Uart.Close` | final_project_503/final_project_503/final_project_502/final_project502/final_project_428/software/final_proj_bsp/drivers/src/altera_avalon_jtag_uart_init.c:241-254 | Success is reported only with nothing left to send or host_inactive at the timeout at some look of the call; a refusal only by a non-blocking call that found bytes to send and then host_inactive below the timeout; a blocking call uses up the modelled turns only if every evaluation of the condition found just that |
| `JtagUart.Perform` | final_project_503/final_project_503/final_project_502/final_project502/final_project_428/software/final_proj_bsp/drivers/src/altera_avalon_jtag_uart_write.c:84-215 | Each kind of call gets a report of its own kind that is sound for its circumstances, and the driver's histories grow by exactly what is reported |
| `JtagUart.ComesBack` | final_project_503/final_project_503/final_project_502/final_project502/final_project_428/software/final_proj_bsp/drivers/src/altera_avalon_jtag_uart_write.c:183-184 | A call made on a host that is inactive all the time comes back |
| `JtagUart.ServedComesBack` | final_project_503/final_project_503/final_project_502/final_project502/final_project_428/software/final_proj_bsp/drivers/src/altera_avalon_jtag_uart_write.c:100-191 | A call comes back when what it waits for comes about: if no more than n busy-wait turns in a row are in vain, a write needs at most n + 1 turns for each byte of its data beyond the room at the call and each look that finds the host inactive for the timeout, a read or a close at most n + 1, whatever else the host does |
| `JtagUart.ToldEach` | final_project_503/final_project_503/final_project_502/final_project502/final_project_428/software/final_proj_bsp/drivers/src/altera_avalon_jtag_uart_write.c:200-214 | In the log of a program every report is sound: a count or the right error, at least the room or the supply at the call moved, a blocking call stops short only on an inactive host and stays waiting only after looks in vain; and the steps follow one another |
| `JtagUart.Session` | final_project_503/final_project_503/final_project_502/final_project502/final_project_428/software/final_proj_bsp/drivers/src/altera_avalon_jtag_uart_write.c:84-215 | For every client program, host stream and interleaving there is one sound report per call, in order, up to a call that does not come back; the data reported sent, concatenated, equals what the host has, then the hardware FIFO, then the buffer; the bytes returned, then buffer, FIFO and unsent bytes, equal the host's stream; and nothing is stranded with its interrupt off |
| `AlarmTime.ArmTracks` | final_project_503/final_project_503/final_project_502/final_project502/final_project_428/software/final_proj_bsp/HAL/src/alt_alarm_start.c:80-96 | The time and rollover bit set for fewer than 2^32 - 1 ticks stand for the due tick |
| `AlarmTime.TickTracks` | final_project_503/final_project_503/final_project_502/final_project502/final_project_428/software/final_proj_bsp/HAL/src/alt_tick.c:96-115 | At each tick the alarm expires if and only if the tick is the due one, and otherwise its deadline still stands for it |
| `AlarmTime.RearmTracks` | final_project_503/final_project_503/final_project_502/final_project502/final_project_428/software/final_proj_bsp/HAL/src/alt_tick.c:127-137 | Re-arming by a non-zero period stands for that many ticks after the due tick, be that now or, for an alarm its own callback started again, a later one, if the sum is less than 2^32 ticks away |
| `AlarmTime.StillTracks` | final_project_503/final_project_503/final_project_502/final_project502/final_project_428/software/final_proj_bsp/HAL/src/alt_tick.c:102-115 | A deadline ahead neither expires nor changes if its alarm is visited again in the same tick |
| `AlarmTime.FiresAsPromised` | final_project_503/final_project_503/final_project_502/final_project502/final_project_428/software/final_proj_bsp/HAL/src/alt_tick.c:87-141 | Over any number of counter wraps and any callback replies, an alarm fires at exactly the promised ticks on the unbounded tick count |
| `AlarmTime.StartedFiresAsPromised` | final_project_503/final_project_503/final_project_502/final_project502/final_project_428/software/final_proj_bsp/HAL/src/alt_alarm_start.c:80-96 | The same from the start of the alarm, for every request but 2^32 - 1 ticks |
| `AlarmTime.LongestAtWrap` | final_project_503/final_project_503/final_project_502/final_project502/final_project_428/software/final_proj_bsp/HAL/src/alt_alarm_start.c:82-96 | A request of 2^32 - 1 ticks with the counter about to wrap is kept, for any callback replies |
| `AlarmTime.LongestFiresEarly` | final_project_503/final_project_503/final_project_502/final_project502/final_project_428/software/final_proj_bsp/HAL/src/alt_alarm_start.c:82-96 | Otherwise such a request fires at the next tick, for any callback replies |
| `AlarmTime.ExactIff` | final_project_503/final_project_503/final_project_502/final_project502/final_project_428/software/final_proj_bsp/HAL/src/alt_alarm_start.c:82-96 | An alarm fires at the promised ticks, for any replies and any number of ticks, if and only if the request is below 2^32 - 1 or the counter stands at 2^32 - 1 |
| `AlarmList.Insert` | final_project_503/final_project_503/final_project_502/final_project502/final_project_428/software/final_proj_bsp/HAL/inc/sys/alt_llist.h:90-98 | Inserting keeps the list circular with next and previous inverse, with the entry first |
| `AlarmList.Remove` | final_project_503/final_project_503/final_project_502/final_project502/final_project_428/software/final_proj_bsp/HAL/inc/sys/alt_llist.h:105-117 | Removing links the neighbours to each other, self-links the entry and changes no other link |
| `AlarmList.RemoveFrom` | final_project_503/final_project_503/final_project_502/final_project502/final_project_428/software/final_proj_bsp/HAL/inc/sys/alt_llist.h:105-117 | Removing keeps the list circular without the entry, and is harmless for an entry that is not linked |
| `AlarmList.BypassForward` | final_project_503/final_project_503/final_project_502/final_project502/final_project_428/software/final_proj_bsp/HAL/inc/sys/alt_llist.h:107-108 | Leading one forward link past an entry yields the list without it |
| `AlarmList.BypassBackward` | final_project_503/final_project_503/final_project_502/final_project502/final_project_428/software/final_proj_bsp/HAL/inc/sys/alt_llist.h:107-108 | Leading one backward link past an entry yields the reversed list without it |
| `AlarmList.Bypassed` | final_project_503/final_project_503/final_project_502/final_project502/final_project_428/software/final_proj_bsp/HAL/inc/sys/alt_llist.h:107-108 | Both together yield the circular list without the entry |
| `AlarmSpec.NextRest` | final_project_503/final_project_503/final_project_502/final_project502/final_project_428/software/final_proj_bsp/HAL/src/alt_tick.c:100-100 | The alarm after a linked one is the next of those still to be visited |
| `AlarmSpec.NextUnlinked` | final_project_503/final_project_503/final_project_502/final_project502/final_project_428/software/final_proj_bsp/HAL/inc/sys/alt_llist.h:115-116 | An alarm that is not linked is followed by itself |
| `AlarmSpec.EffectsRest` | final_project_503/final_project_503/final_project_502/final_project502/final_project_428/software/final_proj_bsp/HAL/src/alt_tick.c:117-117 | A callback that does not stop the alarm visited next adds nothing to the alarms still to be visited, takes away at most those it stops, and leaves the deadlines of the others |
| `AlarmSpec.EffectsSpare` | final_project_503/final_project_503/final_project_502/final_project502/final_project_428/software/final_proj_bsp/HAL/src/alt_tick.c:117-117 | An alarm that no act of a callback names stays linked or unlinked and keeps its deadline |
| `AlarmSpec.TurnRest` | final_project_503/final_project_503/final_project_502/final_project502/final_project_428/software/final_proj_bsp/HAL/src/alt_tick.c:98-141 | A turn of the walk passes the alarm it visits, adds none to those still to be visited, and takes away only those its callback stopped |
| `AlarmSpec.TurnSettles` | final_project_503/final_project_503/final_project_502/final_project502/final_project_428/software/final_proj_bsp/HAL/src/alt_tick.c:106-138 | A visited alarm that its callback does not act on is left as it was, unlinked, or re-armed, as its deadline and the reply ask |
| `AlarmSpec.WalkEnds` | final_project_503/final_project_503/final_project_502/final_project502/final_project_428/software/final_proj_bsp/HAL/src/alt_tick.c:98-141 | A walk whose callbacks do not stop the alarm visited next ends within as many turns as there were alarms to visit |
| `AlarmSpec.VisitedOnce` | final_project_503/final_project_503/final_project_502/final_project502/final_project_428/software/final_proj_bsp/HAL/src/alt_tick.c:98-141 | Every alarm to be visited is visited exactly once, with the deadline it had at the start, unless a callback stops it first |
| `AlarmSpec.NeverVisited` | final_project_503/final_project_503/final_project_502/final_project502/final_project_428/software/final_proj_bsp/HAL/src/alt_tick.c:98-141 | An alarm that is not linked, and not named by a callback, is not visited |
| `AlarmWalks.TickOutcome` | final_project_503/final_project_503/final_project_502/final_project502/final_project_428/software/final_proj_bsp/HAL/src/alt_tick.c:87-142 | Whatever else callbacks do, a tick ends, and runs the callback of each alarm linked at its start once if its deadline has expired and not at all otherwise, unless a callback stops the alarm first |
| `AlarmWalks.TurnsSuffice` | final_project_503/final_project_503/final_project_502/final_project502/final_project_428/software/final_proj_bsp/HAL/src/alt_tick.c:98-141 | As many turns as alarms are linked are enough, and more make no difference |
| `AlarmWalks.TickRunsDue` | final_project_503/final_project_503/final_project_502/final_project502/final_project_428/software/final_proj_bsp/HAL/src/alt_tick.c:87-142 | A tick runs the callback of a linked alarm if and only if the tick is the due one, unless a callback of this tick stops the alarm; starts of it that have no effect make no difference |
| `AlarmWalks.TickSettles` | final_project_503/final_project_503/final_project_502/final_project502/final_project_428/software/final_proj_bsp/HAL/src/alt_tick.c:87-142 | A linked alarm that no callback names is left as it was, gone after a reply of zero, or linked with the period added |
| `AlarmWalks.TickKeepsPromise` | final_project_503/final_project_503/final_project_502/final_project502/final_project_428/software/final_proj_bsp/HAL/src/alt_tick.c:87-142 | The deadline of such an alarm then stands for the due tick still, or for the period after this tick |
| `AlarmWalks.QuietTick` | final_project_503/final_project_503/final_project_502/final_project502/final_project_428/software/final_proj_bsp/HAL/src/alt_tick.c:87-142 | If callbacks act on nothing, exactly the alarms whose deadlines have expired run, once each, exactly those of them that reply zero are gone, and no others have come |
| `AlarmWalks.LinkedIff` | final_project_503/final_project_503/final_project_502/final_project502/final_project_428/software/final_proj_bsp/HAL/src/alt_tick.c:66-73 | An alarm is linked after a callback's acts exactly as the last act about it says, or as it was if there is none |
| `AlarmWalks.RecoversIff` | final_project_503/final_project_503/final_project_502/final_project502/final_project_428/software/final_proj_bsp/HAL/src/alt_tick.c:100-141 | A walk that stands at an alarm that is not linked comes to it again; it is linked then if and only if its own callback, which runs if it is due although it was stopped, has started it and asked for a period |
| `AlarmWalks.ReturnsIff` | final_project_503/final_project_503/final_project_502/final_project502/final_project_428/software/final_proj_bsp/HAL/src/alt_tick.c:98-141 | A walk that has left the list comes back to it if and only if that happens in some turn, whatever callbacks do |
| `AlarmWalks.EndsIff` | final_project_503/final_project_503/final_project_502/final_project502/final_project_428/software/final_proj_bsp/HAL/src/alt_tick.c:98-141 | If no further callback stops the alarm visited next, and none brings the walk back, a walk ends if and only if it is over or stands at a linked alarm |
| `AlarmWalks.StopNextIff` | final_project_503/final_project_503/final_project_502/final_project502/final_project_428/software/final_proj_bsp/HAL/src/alt_tick.c:98-141 | When a callback runs, and later ones do neither, the tick ends if and only if the last act about the alarm visited next, if any, is not a stop |
| `AlarmWalks.StopNextFails` | final_project_503/final_project_503/final_project_502/final_project502/final_project_428/software/final_proj_bsp/HAL/src/alt_tick.c:98-141 | With two alarms of which the first callback stops the second the tick never ends; if the callback starts it again, it does |
| `AlarmRuns.EffectAhead` | final_project_503/final_project_503/final_project_502/final_project502/final_project_428/software/final_proj_bsp/HAL/src/alt_tick.c:100-117 | A linked alarm that a walk has yet to visit stays so, also when a callback stops the alarm visited next and starts it again |
| `AlarmRuns.TurnAhead` | final_project_503/final_project_503/final_project_502/final_project502/final_project_428/software/final_proj_bsp/HAL/src/alt_tick.c:98-141 | A turn leaves every linked alarm that is still to be visited, and not stopped, still to be visited and its deadline as it was, even off the list |
| `AlarmRuns.TurnStays` | final_project_503/final_project_503/final_project_502/final_project502/final_project_428/software/final_proj_bsp/HAL/src/alt_tick.c:98-141 | An alarm that has been visited does not run again in the tick, even if the walk comes to it again |
| `AlarmRuns.TickLands` | final_project_503/final_project_503/final_project_502/final_project502/final_project_428/software/final_proj_bsp/HAL/src/alt_tick.c:87-142 | In every tick that ends, however callbacks stop and start other alarms, a linked alarm's callback runs exactly once if the tick is the due one and not at all otherwise, and the alarm is then gone or due as promised |
| `AlarmRuns.RunFiresAsPromised` | final_project_503/final_project_503/final_project_502/final_project502/final_project_428/software/final_proj_bsp/HAL/src/alt_alarm_start.c:48-63 | Over any run of starts, stops and ticks that end, an alarm that is left alone runs its callback at exactly the ticks promised to the caller, once each, for any replies, whatever becomes of the others |
| `AlarmRuns.StoppedNeverRuns` | final_project_503/final_project_503/final_project_502/final_project502/final_project_428/software/final_proj_bsp/HAL/src/alt_tick.c:66-73 | An alarm that is stopped, and left alone afterwards, never runs again in any run that follows |
| `AlarmRuns.TidyTickSettles` | final_project_503/final_project_503/final_project_502/final_project502/final_project_428/software/final_proj_bsp/HAL/src/alt_tick.c:87-142 | In a tick whose callbacks do not stop the alarm visited next, an alarm runs once if its deadline has expired, whatever the deadline, and is settled as the reply asks |
| `AlarmRuns.TidyCompletes` | final_project_503/final_project_503/final_project_502/final_project502/final_project_428/software/final_proj_bsp/HAL/src/alt_tick.c:98-141 | If no callback stops the alarm visited next, every tick ends within a turn for each linked alarm |
| `AlarmRuns.RunFires` | final_project_503/final_project_503/final_project_502/final_project502/final_project_428/software/final_proj_bsp/HAL/src/alt_tick.c:87-142 | In such runs the list service runs a linked alarm's callback, whatever its deadline, at exactly the ticks at which the alarm would fire by itself |
| `AlarmRuns.RunsAtNextTick` | final_project_503/final_project_503/final_project_502/final_project502/final_project_428/software/final_proj_bsp/HAL/src/alt_alarm_start.c:82-96 | Over any run, an alarm whose deadline has expired by the next tick, as after a request of 2^32 - 1 ticks, runs in it |
| `AlarmRuns.WrapKeepsPromise` | final_project_503/final_project_503/final_project_502/final_project502/final_project_428/software/final_proj_bsp/HAL/src/alt_alarm_start.c:82-96 | Over any run, such a request is kept if the counter is about to wrap |
| `AlarmRuns.StartedRunIff` | final_project_503/final_project_503/final_project_502/final_project502/final_project_428/software/final_proj_bsp/HAL/src/alt_alarm_start.c:64-112 | An alarm started for n ticks runs at exactly the promised ticks of the run that follows if and only if n is below 2^32 - 1 or the counter stands at 2^32 - 1 |
| `AlarmRuns.OwnRearmed` | final_project_503/final_project_503/final_project_502/final_project502/final_project_428/software/final_proj_bsp/HAL/src/alt_tick.c:126-138 | Re-arming leaves a deadline ahead also after the callback has started its own alarm again, if the two sums are below 2^32 |
| `AlarmRuns.RolledGood` | final_project_503/final_project_503/final_project_502/final_project502/final_project_428/software/final_proj_bsp/HAL/src/alt_tick.c:102-115 | Visiting an alarm finds it expired at this very tick, or leaves it due in the future |
| `AlarmRuns.TurnOnTime` | final_project_503/final_project_503/final_project_502/final_project502/final_project_428/software/final_proj_bsp/HAL/src/alt_tick.c:98-141 | A turn, whatever its callback stops and starts, leaves every linked alarm due in the future or still to be visited as the tick before left it |
| `AlarmRuns.RunKeepsOnTime` | final_project_503/final_project_503/final_project_502/final_project502/final_project_428/software/final_proj_bsp/HAL/src/alt_tick.c:87-142 | In every state of every run whose ticks end and whose requests the 32-bit time can express, every linked alarm is due in the future: none is passed by |
| `Alarms.AlarmService.constructor` | final_project_503/final_project_503/final_project_502/final_project502/final_project_428/software/final_proj_bsp/HAL/src/alt_tick.c:44-58 | The service starts with an empty circular list and the counter at zero |
| `Alarms.AlarmService.Start` | final_project_503/final_project_503/final_project_502/final_project502/final_project_428/software/final_proj_bsp/HAL/src/alt_alarm_start.c:64-112 | Fails without a clock or without an alarm and changes nothing; otherwise links the alarm first with the specified deadline |
| `Alarms.AlarmService.Stop` | final_project_503/final_project_503/final_project_502/final_project502/final_project_428/software/final_proj_bsp/HAL/src/alt_tick.c:66-73 | Unlinks the alarm and leaves the others in order; a second stop is harmless |
| `Alarms.AlarmService.IdleIff` | final_project_503/final_project_503/final_project_502/final_project502/final_project_428/software/final_proj_bsp/HAL/inc/sys/alt_llist.h:115-116 | An alarm's links tell whether it is linked |
| `Alarms.AlarmService.Perform` | final_project_503/final_project_503/final_project_502/final_project502/final_project_428/software/final_proj_bsp/HAL/src/alt_tick.c:66-73 | A callback may start any idle alarm, its own included, and stop any alarm that was started, its own and the one visited next included; the linked list then is the specified sequence |
| `Alarms.AlarmService.Callback` | final_project_503/final_project_503/final_project_502/final_project502/final_project_428/software/final_proj_bsp/HAL/src/alt_tick.c:117-117 | Any sequence of such acts leaves the list and the deadlines that the fold over plain sequences gives |
| `Alarms.AlarmService.Settle` | final_project_503/final_project_503/final_project_502/final_project502/final_project_428/software/final_proj_bsp/HAL/src/alt_tick.c:119-138 | A zero reply unlinks the alarm, any other is added to its deadline |
| `Alarms.AlarmService.Visit` | final_project_503/final_project_503/final_project_502/final_project502/final_project_428/software/final_proj_bsp/HAL/src/alt_tick.c:102-139 | The loop's body does to the linked list what the specification says of the sequence |
| `Alarms.AlarmService.NextIs` | final_project_503/final_project_503/final_project_502/final_project502/final_project_428/software/final_proj_bsp/HAL/src/alt_tick.c:100-100 | The forward link leads where the specification says: to the next alarm, to the head, or from an unlinked alarm to itself |
| `Alarms.AlarmService.Turn` | final_project_503/final_project_503/final_project_502/final_project502/final_project_428/software/final_proj_bsp/HAL/src/alt_tick.c:100-140 | A turn of the loop, with the next alarm looked up before the callback, is the specified turn |
| `Alarms.AlarmService.Walk` | final_project_503/final_project_503/final_project_502/final_project502/final_project_428/software/final_proj_bsp/HAL/src/alt_tick.c:98-141 | For every number of turns and every behaviour of callbacks, the loop over links is the specified walk, and ends exactly when that does |
| `Alarms.AlarmService.Tick` | final_project_503/final_project_503/final_project_502/final_project502/final_project_428/software/final_proj_bsp/HAL/src/alt_tick.c:87-142 | The tick interrupt leaves exactly the list, deadlines and counter that the specified tick leaves, for every behaviour of callbacks, and ends exactly when that does |
| `Alarms.Handle` | final_project_503/final_project_503/final_project_502/final_project502/final_project_428/software/final_proj_bsp/HAL/src/alt_tick.c:87-142 | Every event outside callbacks does exactly what the event of the specified runs does, and is over exactly when that is |
| `Alarms.Play` | final_project_503/final_project_503/final_project_502/final_project502/final_project_428/software/final_proj_bsp/HAL/src/alt_tick.c:87-142 | Every run of the service, up to the first tick that does not end within its turns, is the specified run; it gets to the end exactly if every tick ends, as every tick does with a turn for each linked alarm and callbacks that do not stop the alarm visited next, and is then in the state which the theorems about runs are about |
| `Alarms.TurnsForAll` | final_project_503/final_project_503/final_project_502/final_project502/final_project_428/software/final_proj_bsp/HAL/src/alt_tick.c:98-141 | As many turns as the program has alarms are enough for a tick whose callbacks do not stop the alarm visited next |
| `FdSpec.FirstFree` | final_project_503/final_project_503/final_project_502/final_project502/final_project_428/software/final_proj_bsp/HAL/src/alt_get_fd.c:77-89 | The descriptor claimed is the lowest free one |
| `FdSpec.InitialInv` | final_project_503/final_project_503/final_project_502/final_project502/final_project_428/software/final_proj_bsp/HAL/src/alt_dev.c:118-149 | The pool's invariant holds at startup, with the high-water mark at -1 and three slots in use |
| `FdSpec.OpenDiscipline` | final_project_503/final_project_503/final_project_502/final_project502/final_project_428/software/final_proj_bsp/HAL/src/alt_open.c:105-171 | A successful open returns the lowest free index, never 0 to 2, unlocked, and touches no other slot; a failed one restores device and flags of every slot |
| `FdSpec.OpenSucceedsIff` | final_project_503/final_project_503/final_project_502/final_project502/final_project_428/software/final_proj_bsp/HAL/src/alt_open.c:118-157 | An open succeeds exactly if the name resolves, a slot is free, no descriptor at all holds the device's lock and the driver agrees |
| `FdSpec.OpenAnswers` | final_project_503/final_project_503/final_project_502/final_project502/final_project_428/software/final_proj_bsp/HAL/src/alt_open.c:105-171 | An open reports ENODEV exactly if the name does not resolve, then EMFILE exactly if no slot is free, then EACCES exactly if the device is locked, then the driver's error |
| `FdSpec.OpenInv` | final_project_503/final_project_503/final_project_502/final_project502/final_project_428/software/final_proj_bsp/HAL/src/alt_open.c:105-171 | An open keeps the invariant |
| `FdSpec.CloseDiscipline` | final_project_503/final_project_503/final_project_502/final_project502/final_project_428/software/final_proj_bsp/HAL/src/alt_close.c:64-101 | A close frees a descriptor from 3 on with its flags, lock included, whatever the driver answers, keeps those of the standard streams, and touches no other slot; it reports 0 exactly for a descriptor whose driver does not fail, and otherwise EBADFD or the driver's error |
| `FdSpec.OpenThenClose` | final_project_503/final_project_503/final_project_502/final_project502/final_project_428/software/final_proj_bsp/HAL/src/alt_release_fd.c:44-51 | Closing what was just opened restores device and flags of every slot |
| `FdSpec.CloseThenOpen` | final_project_503/final_project_503/final_project_502/final_project502/final_project_428/software/final_proj_bsp/HAL/src/alt_get_fd.c:77-89 | After the close of a descriptor below which none is free, the next successful open returns it again; a lock it held is gone |
| `FdSpec.CloseInv` | final_project_503/final_project_503/final_project_502/final_project502/final_project_428/software/final_proj_bsp/HAL/src/alt_close.c:64-101 | A close keeps the invariant, under which a free slot has no flags |
| `FdSpec.IoctlInv` | final_project_503/final_project_503/final_project_502/final_project502/final_project_428/software/final_proj_bsp/HAL/src/alt_ioctl.c:127-139 | Locking keeps the invariant: although the scan skips the high-water mark, no device is ever locked through two descriptors |
| `FdSpec.IoctlDiscipline` | final_project_503/final_project_503/final_project_502/final_project502/final_project_428/software/final_proj_bsp/HAL/src/alt_ioctl.c:106-168 | TIOCEXCL on a device reports success exactly if the scan grants it and then sets the lock, TIOCNXCL always clears it, any other request is the driver's and changes no flag; no other slot changes |
| `FdSpec.LockReportIff` | final_project_503/final_project_503/final_project_502/final_project502/final_project_428/software/final_proj_bsp/HAL/src/alt_fd_lock.c:54-75 | TIOCEXCL reports success exactly if the lock is then held, if and only if the lock was not held before or the scan finds no other user |
| `FdSpec.OpenFdConserves` | final_project_503/final_project_503/final_project_502/final_project502/final_project_428/software/final_proj_bsp/HAL/src/alt_io_redirect.c:58-72 | Redirecting one stream moves it to the device if the open succeeds and changes nothing otherwise; the temporary descriptor is free again |
| `FdSpec.RedirectConserves` | final_project_503/final_project_503/final_project_502/final_project502/final_project_428/software/final_proj_bsp/HAL/src/alt_io_redirect.c:85-94 | From every reachable state, redirection leaves slots 3 and up as they were and each standard stream untouched or on its device with fresh flags |
| `FdSpec.RedirectMoves` | final_project_503/final_project_503/final_project_502/final_project502/final_project_428/software/final_proj_bsp/HAL/src/alt_io_redirect.c:85-94 | Each of the three streams moves to its device exactly if its open, in the state the ones before have left, succeeds |
| `FdSpec.RedirectAll` | final_project_503/final_project_503/final_project_502/final_project502/final_project_428/software/final_proj_bsp/HAL/src/alt_io_redirect.c:85-94 | With a free slot, no locks and three devices that agree, all three streams end on their devices with the flags of their modes |
| `FdSpec.StepInv` | final_project_503/final_project_503/final_project_502/final_project502/final_project_428/software/final_proj_bsp/HAL/src/alt_open.c:105-171 | Every call keeps the invariant |
| `FdSpec.RunInv` | final_project_503/final_project_503/final_project_502/final_project502/final_project_428/software/final_proj_bsp/HAL/src/alt_fd_lock.c:54-75 | In every state of every run from startup the invariant holds; in particular at most one descriptor per device holds its lock |
| `FdSpec.OpenLock` | final_project_503/final_project_503/final_project_502/final_project502/final_project_428/software/final_proj_bsp/HAL/src/alt_open.c:79-86 | An open, whether it succeeds or not, never adds a descriptor to a locked device |
| `FdSpec.LockStep` | final_project_503/final_project_503/final_project_502/final_project502/final_project_428/software/final_proj_bsp/HAL/src/alt_open.c:64-171 | While a lock is held no call adds a descriptor to the device, and only closing, unlocking or redirecting the holder ends it |
| `FdSpec.ExclusiveAccess` | final_project_503/final_project_503/final_project_502/final_project502/final_project_428/software/final_proj_bsp/HAL/src/alt_fd_lock.c:37-52 | Over whole runs, until the holder gives the lock up, the other descriptors on the device can only get fewer |
| `FdSpec.LockSoundIff` | final_project_503/final_project_503/final_project_502/final_project502/final_project_428/software/final_proj_bsp/HAL/src/alt_fd_lock.c:61-69 | The lock is granted exactly to sole users of a device if and only if the descriptor at the high-water mark is not the one other user |
| `FdSpec.InclusiveScanSound` | final_project_503/final_project_503/final_project_502/final_project502/final_project_428/software/final_proj_bsp/HAL/src/alt_fd_lock.c:43-45 | A scan through the high-water mark inclusive would grant the lock exactly to sole users, as the comment intends |
| `FdSpec.HiddenReachable` | final_project_503/final_project_503/final_project_502/final_project502/final_project_428/software/final_proj_bsp/HAL/src/alt_fd_lock.c:61-69 | A reachable run in which descriptor 3 is granted the lock although descriptor 4 refers to the device |
| `FdPool.DescriptorPool.constructor` | final_project_503/final_project_503/final_project_502/final_project502/final_project_428/software/final_proj_bsp/HAL/src/alt_dev.c:118-149 | The array at startup |
| `FdPool.DescriptorPool.GetFd` | final_project_503/final_project_503/final_project_502/final_project502/final_project_428/software/final_proj_bsp/HAL/src/alt_get_fd.c:54-101 | The search claims the lowest free slot and raises the high-water mark, or changes nothing |
| `FdPool.DescriptorPool.ReleaseFd` | final_project_503/final_project_503/final_project_502/final_project502/final_project_428/software/final_proj_bsp/HAL/src/alt_release_fd.c:44-51 | Frees slots from 3 on and clears their flags |
| `FdPool.DescriptorPool.FileLocked` | final_project_503/final_project_503/final_project_502/final_project502/final_project_428/software/final_proj_bsp/HAL/src/alt_open.c:64-92 | The scan finds another holder exactly if there is one at or below the high-water mark, which is never negative then |
| `FdPool.DescriptorPool.OpenFile` | final_project_503/final_project_503/final_project_502/final_project502/final_project_428/software/final_proj_bsp/HAL/src/alt_open.c:105-171 | The array code does what the open of the specification does, and keeps the invariant |
| `FdPool.DescriptorPool.CloseFile` | final_project_503/final_project_503/final_project_502/final_project502/final_project_428/software/final_proj_bsp/HAL/src/alt_close.c:64-101 | The same for close |
| `FdPool.DescriptorPool.Lock` | final_project_503/final_project_503/final_project_502/final_project502/final_project_428/software/final_proj_bsp/HAL/src/alt_fd_lock.c:54-75 | The scan grants the lock exactly if no other descriptor below the high-water mark is on the device |
| `FdPool.DescriptorPool.Unlock` | final_project_503/final_project_503/final_project_502/final_project502/final_project_428/software/final_proj_bsp/HAL/src/alt_fd_unlock.c:52-56 | Clears the lock bit only, and always succeeds |
| `FdPool.DescriptorPool.IoControl` | final_project_503/final_project_503/final_project_502/final_project502/final_project_428/software/final_proj_bsp/HAL/src/alt_ioctl.c:106-168 | The two lock requests are handled for devices, everything else goes to the driver |
| `FdPool.DescriptorPool.OpenStream` | final_project_503/final_project_503/final_project_502/final_project502/final_project_428/software/final_proj_bsp/HAL/src/alt_io_redirect.c:58-72 | The array code does what the stream redirection of the specification does |
| `FdPool.DescriptorPool.RedirectStreams` | final_project_503/final_project_503/final_project_502/final_project502/final_project_428/software/final_proj_bsp/HAL/src/alt_io_redirect.c:85-94 | Redirects output, input and error in this order |
| `Numerals.NumeralExists` | final_project_503/final_project_503/final_project_502/final_project502/final_project_428/software/final_proj_bsp/HAL/src/alt_log_printf.c:281-296 | Every number has a numeral without leading zeros in every base from 2 to 16 |
| `Numerals.NumeralUnique` | final_project_503/final_project_503/final_project_502/final_project502/final_project_428/software/final_proj_bsp/HAL/src/alt_printf.c:91-112 | A number has only one numeral without leading zeros in a base |
| `Numerals.DigitTable` | final_project_503/final_project_503/final_project_502/final_project502/final_project_428/software/final_proj_bsp/HAL/src/alt_printf.c:103-112 | The digits of a numeral are the characters 0 to 9 and a to f, or A to F in upper case |
| `IntPrint.CountDigits` | final_project_503/final_project_503/final_project_502/final_project502/final_project_428/software/final_proj_bsp/HAL/src/alt_log_printf.c:247-255 | The digit count and largest place value are right, the place value never wraps, and the loop terminates |
| `IntPrint.EmitDigits` | final_project_503/final_project_503/final_project_502/final_project502/final_project_428/software/final_proj_bsp/HAL/src/alt_log_printf.c:281-296 | The digits printed are the one numeral of the value, as many as were counted, and the loop terminates |
| `IntPrint.RepChar` | final_project_503/final_project_503/final_project_502/final_project502/final_project_428/software/final_proj_bsp/HAL/src/alt_log_printf.c:106-110 | Prints the character n times, and not at all for a negative n |
| `IntPrint.Lead` | final_project_503/final_project_503/final_project_502/final_project502/final_project_428/software/final_proj_bsp/HAL/src/alt_log_printf.c:257-279 | Zeros go after the sign and spaces before it, filling up to the width |
| `IntPrint.PrintMagnitude` | final_project_503/final_project_503/final_project_502/final_project502/final_project_428/software/final_proj_bsp/HAL/src/alt_log_printf.c:247-296 | Prefix and digits together are the padded numeral of the magnitude |
| `IntPrint.PrintInteger` | final_project_503/final_project_503/final_project_502/final_project502/final_project_428/software/final_proj_bsp/HAL/src/alt_log_printf.c:206-297 | The output is the padded numeral of the argument's magnitude with its sign, for every 32-bit argument, sign mode, base, width and fill |
| `IntPrint.PrintedReadsBack` | final_project_503/final_project_503/final_project_502/final_project502/final_project_428/software/final_proj_bsp/HAL/src/alt_log_printf.c:206-297 | Reading the output back yields the argument, the smallest integer included, and its length is max(width, digits + sign) |
| `IntPrint.PrintedFill` | final_project_503/final_project_503/final_project_502/final_project502/final_project_428/software/final_proj_bsp/HAL/src/alt_log_printf.c:257-279 | With zero fill the output has no space, begins with the minus sign of a negative number, and has zeros between it and the numeral; without, the filling is spaces, all of them before the sign |
| `IntPrint.FirstDigit` | final_project_503/final_project_503/final_project_502/final_project502/final_project_428/software/final_proj_bsp/HAL/src/alt_printf.c:98-101 | The search from the top stops at the highest non-zero digit |
| `IntPrint.EmitNibbles` | final_project_503/final_project_503/final_project_502/final_project502/final_project_428/software/final_proj_bsp/HAL/src/alt_printf.c:103-112 | The shifted-out digits are the numeral in base 16 |
| `IntPrint.PrintHex` | final_project_503/final_project_503/final_project_502/final_project502/final_project_428/software/final_proj_bsp/HAL/src/alt_printf.c:84-113 | The small printer's output is the numeral in base 16 for every 32-bit value |
| `IntPrint.HexPrintersAgree` | final_project_503/final_project_503/final_project_502/final_project502/final_project_428/software/final_proj_bsp/HAL/src/alt_printf.c:84-113 | Without a width, the shifting and the dividing hexadecimal printers print the same string for every 32-bit value |
| `Clock.WallClock.SetTimeOfDay` | final_project_503/final_project_503/final_project_502/final_project502/final_project_428/software/final_proj_bsp/HAL/src/alt_settod.c:72-96 | Stores the reset time computed with a 32-bit product, or reports that there is no clock and changes nothing |
| `Clock.WallClock.GetTimeOfDay` | final_project_503/final_project_503/final_project_502/final_project502/final_project_428/software/final_proj_bsp/HAL/src/alt_gettod.c:79-123 | Answers the normalised sum of reset time and elapsed ticks, or reports that there is no clock |
| `Clock.Normalise` | final_project_503/final_project_503/final_project_502/final_project502/final_project_428/software/final_proj_bsp/HAL/src/alt_gettod.c:95-112 | The two loops terminate with microseconds in range and the same instant, or with zero for an instant before zero |
| `Clock.ReducedProductIff` | final_project_503/final_project_503/final_project_502/final_project502/final_project_428/software/final_proj_bsp/HAL/src/alt_settod.c:83-84 | Reducing the tick product to 32 bits is harmless exactly if its high part is a multiple of 5^6 |
| `Clock.ImmediateIff` | final_project_503/final_project_503/final_project_502/final_project502/final_project_428/software/final_proj_bsp/HAL/src/alt_settod.c:60-63 | At any rate, a get at the tick of a set returns the time set if and only if the high part of the tick product is a multiple of 5^6, or the time is zero and the error negative, so that the clamp to zero hides it |
| `Clock.ImmediateFails` | final_project_503/final_project_503/final_project_502/final_project502/final_project_428/software/final_proj_bsp/HAL/src/alt_settod.c:83-84 | Setting the time to one second at tick 4294968 of a 1000 Hz clock reads back something else |
| `Clock.ElapsedIff` | final_project_503/final_project_503/final_project_502/final_project502/final_project_428/software/final_proj_bsp/HAL/src/alt_settod.c:80-84 | For rates that divide a second, a later get returns the time set plus the ticks elapsed if and only if that holds, of the time promised |
| `Clock.ElapsedExact` | final_project_503/final_project_503/final_project_502/final_project502/final_project_428/software/final_proj_bsp/HAL/src/alt_gettod.c:89-112 | With a product below 2^32 the promise is kept for every normalised time, and the sum formed before the two loops is the promised time already and not negative, so that the clamp to zero is not reached |
| `Clock.ElapsedDifference` | final_project_503/final_project_503/final_project_502/final_project502/final_project_428/software/final_proj_bsp/HAL/src/alt_gettod.c:86-112 | Two gets after such a set differ by exactly the ticks between them; time does not go back |
| `Heap.BelowStarts` | final_project_503/final_project_503/final_project_502/final_project502/final_project_428/software/final_proj_bsp/HAL/src/alt_sbrk.c:97-98 | Of the blocks there were, lowering the heap end leaves starts that still do not overlap |
| `Heap.Allocator.constructor` | final_project_503/final_project_503/final_project_502/final_project502/final_project_428/software/final_proj_bsp/HAL/src/alt_sbrk.c:57-60 | The heap starts empty at the linker's address |
| `Heap.Allocator.Extend` | final_project_503/final_project_503/final_project_502/final_project502/final_project_428/software/final_proj_bsp/HAL/src/alt_sbrk.c:75-98 | The heap end is aligned and moved by any 32-bit increment, unless that would pass the limit or wrap below zero |
| `Heap.Allocator.Sbrk` | final_project_503/final_project_503/final_project_502/final_project502/final_project_428/software/final_proj_bsp/HAL/src/alt_sbrk.c:68-136 | A successful call returns the word-aligned old heap end and moves the end by the increment, a failed one only aligns it; over any run all blocks are word aligned, inside the heap and pairwise disjoint; a negative increment gives back what lies above, and the books stay in order exactly if that takes neither the heap end below the start nor part of the slab |
| `Heap.TwoBlocks` | final_project_503/final_project_503/final_project_502/final_project502/final_project_428/software/final_proj_bsp/HAL/src/alt_sbrk.c:94-95 | The blocks of two successful calls with multiples of 4 are contiguous, and a call with 0 then returns the heap end |
| `Heap.Allocator.Allocate` | final_project_503/final_project_503/final_project_502/final_project502/final_project_428/software/final_proj_bsp/HAL/src/alt_gmon.c:133-148 | The slab allocator's block is inside memory it owns if and only if the current slab or a new one can hold it, and is then aligned and disjoint from every other; it is the next of the slab, or the first of a new slab at the aligned heap end |
| `Heap.FirstRequest` | final_project_503/final_project_503/final_project_502/final_project502/final_project_428/software/final_proj_bsp/HAL/src/alt_gmon.c:137-141 | In a heap of less than 1020 bytes the first request, however small, gets the error value of sbrk as its address; it lies in the heap exactly if a whole slab fits |
| `IrqDispatch.Least` | final_project_503/final_project_503/final_project_502/final_project502/final_project_428/software/final_proj_bsp/HAL/src/alt_irq_handler.c:132-155 | The inner loop finds the lowest pending interrupt of the sample |
| `IrqDispatch.Serve` | final_project_503/final_project_503/final_project_502/final_project502/final_project_428/software/final_proj_bsp/HAL/src/alt_irq_handler.c:128-159 | Both loops terminate and call the handlers in the specified order |
| `IrqDispatch.Dispatch` | final_project_503/final_project_503/final_project_502/final_project502/final_project_428/software/final_proj_bsp/HAL/src/alt_irq_handler.c:128-159 | In terms of the calls and arrivals alone: each handler called is that of the lowest interrupt of the last sample, each sample is the one before without that interrupt and with those raised meanwhile, and the last is empty |
| `IrqDispatch.ByPriority` | final_project_503/final_project_503/final_project_502/final_project502/final_project_428/software/final_proj_bsp/HAL/src/alt_irq_handler.c:128-159 | The specified order is by priority in this sense, for any arrivals |
| `IrqDispatch.AllServed` | final_project_503/final_project_503/final_project_502/final_project502/final_project_428/software/final_proj_bsp/HAL/src/alt_irq_handler.c:115-120 | Exactly the interrupts pending at entry or raised while a handler runs are served |
| `IrqDispatch.QuietOrder` | final_project_503/final_project_503/final_project_502/final_project502/final_project_428/software/final_proj_bsp/HAL/src/alt_irq_handler.c:128-159 | If nothing new arrives, handlers run in strictly ascending order, so each pending one once |
| `Vga.Controller.Clock` | final_project_503/final_project_503/final_project_502/final_project502/final_project_428/VGA_controller.sv:53-71 | From the first reset on, with any later resets, the controller's counters and its sync and blanking outputs are the closed-form function of the clocks since the last reset |
| `Vga.CountersAfter` | final_project_503/final_project_503/final_project_502/final_project502/final_project_428/VGA_controller.sv:76-85 | The counters n clocks after reset in closed form |
| `Vga.TimingAfter` | final_project_503/final_project_503/final_project_502/final_project502/final_project_428/VGA_controller.sv:73-100 | Sync and blanking outputs n clocks after reset in closed form |
| `Vga.PixelsPerFrame` | final_project_503/final_project_503/final_project_502/final_project502/final_project_428/VGA_controller.sv:96-99 | Any 420000 consecutive clocks after reset show exactly 640 * 480 visible pixels |

## Left out

- JtagUart.Uart.Write: a busy-wait need not end while the host is there but takes nothing, so the call takes the number of busy-wait turns in the part of the run that is modelled, and reports `Waiting` when they are used up; the contract holds for every such number. That the wait ends is claimed for a host that stays inactive (`JtagUart.ComesBack`), and for one that takes bytes again and again, with the turns that are enough (`JtagUart.ServedComesBack`).
- JtagUart.Uart.Read: the same bound on its busy-wait, and the same two claims that it ends.
- JtagUart.Uart.Close: the same bound on its busy-wait, and the same two claims that it ends.
- JtagUart.Uart.Interrupts: nested interrupts and a second processor are not modelled; the handler is one step of the processor, though the device moves during it.
- Alarms.AlarmService.Tick: a walk that has left the list need not end, so the call takes the number of turns in the part of the run that is modelled; the contract holds for every such number, and `AlarmWalks.TurnsSuffice` says which is enough when callbacks do not stop the next alarm.
- AlarmRuns.RunFiresAsPromised: is about an alarm that events and callbacks leave alone in the run; one that a callback has started is covered from the state after that tick on.
- IntPrint.FirstDigit: four-bit masks and shifts are written as quotients and remainders by powers of two.
- IntPrint.PrintInteger: the format string is not parsed; sign mode, base, width, fill and letter case are parameters.
- FdSpec.Open: what a name resolves to and what driver callbacks answer are parameters; devices and filesystems are distinct, and drivers touch only their descriptor's private data.
- Clock.WallClock.GetTimeOfDay: concurrent set and get, which the comments exclude, are not modelled.
- uC/OS-II branches, the small polled UART driver, direct drivers, the FIFO-full option, the UART's ioctl.
- The profiler's call graph and histogram, whose lookups are in assembly.
- Filesystem and device name lookup, stub system calls, errno storage, logging macros.
- Startup code, cache and stack handling, exception entry.
- The game itself (`main.c`, `usb.c`, `io_handler.c`), whose logic is fixed register writes.
- Colour mapping, palettes and sprites of the display.
