# Verified model of the VerificaSenhaFreeRTOS demo tasks

This project models the sequential logic inside the FreeRTOS tasks of the
OLED1 Xplained Pro demo in `demotasks.c`, and proves properties of it in
Dafny. Three pieces of logic are covered:

- **The UART task** drains the queue of received characters into the
  terminal text buffer. The buffer is a ring of `TERMINAL_BUFFER_LINES`
  zero-terminated lines of `TERMINAL_BUFFER_COLUMNS` bytes. It has a head
  line index (`terminal_line_offset`) and a write column (`current_column`).
  Carriage control follows the firmware:
  - a carriage return ends the line and moves the head to the next line;
  - a line feed is swallowed;
  - any other byte is written and the column advances, wrapping to the next
    line when the line is full.
- **The receive interrupt** (`cdc_rx_handler`) puts each byte received
  without error into the 64-entry queue. It echoes the byte only when the
  queue accepted it.
- **The main task** reads the buttons and builds a four-entry PIN (`senha`),
  one entry per poll, with masked progress at two and three entries. On the
  fourth entry it checks the PIN against the reference (`testea` = 3,1,1,1),
  shows a verdict and resets the system in either case.
- **The about task** draws the welcome text in a zooming animation, using
  integer interpolation between the canvas centre and each glyph's place.

The files:

- `common.dfy`: the byte type, the carriage-control codes, and the integer
  minimum and maximum.
- `byte_queue.dfy`: the bounded FIFO that stands for the FreeRTOS queue.
- `terminal.dfy`: the ring buffer.
  - `Step` and `Feed` specify it as a value.
  - The class `UartTask` works in place on a 2-D array, and its methods are
    proved against `Step` and `Feed`.
- `rx_handler.dfy`: the interrupt's decision and its effect on the queue.
- `pipeline.dfy`: interrupts and drain passes interleaved. It proves that
  bytes reach the ring buffer in the order they were accepted.
- `pin_entry.dfy`: the PIN state machine. `Poll` and `Run` are the
  specification, and the class `MainTask` holds the arrays `senha` and
  `testea`.
- `about.dfy`: the zoom coordinates and the `shift` animation counter.

## Behaviour of the code worth knowing

- **PIN check.** The check at `demotasks.c:294` adds up the four
  differences from the reference and accepts when the sum is zero, so any
  four entries that sum to 6 pass:
  - `Accepts` holds exactly when the entries sum to 6;
  - `AcceptedPins` shows that ten button sequences pass, among them
    1,3,1,1 and 2,2,1,1 (`OtherPinAccepted`).
- **Echo.** The handler echoes a byte only after the queue accepted it
  (`demotasks.c:551-561`); a byte refused by a full queue is not echoed.
  `RxHandler.Decide` does the same.
- **Carriage return.** A carriage return does not clear the rest of its
  line: the code only writes a terminator where the carriage return was and
  at the new head cell. `Terminal.StepCarriageReturn` states exactly which
  cells change.

## Model

| member | source | states |
|---|---|---|
| `ByteQueue.TrySend` | FREERTOS_OLED1_XPRO_EXAMPLE2/FREERTOS_OLED1_XPRO_EXAMPLE2/src/demotasks.c:551-552 | a send from the interrupt succeeds exactly when the queue has room, appends at the tail, and leaves a full queue unchanged |
| `ByteQueue.SendAllKeepsOldestInOrder` | FREERTOS_OLED1_XPRO_EXAMPLE2/FREERTOS_OLED1_XPRO_EXAMPLE2/src/demotasks.c:185 | offering any bytes to the bounded queue keeps the oldest ones that fit, in order: overflow only loses the newest bytes |
| `ByteQueue.BoundedDrop` | FREERTOS_OLED1_XPRO_EXAMPLE2/FREERTOS_OLED1_XPRO_EXAMPLE2/src/demotasks.c:185 | with capacity N, the first N of N+1 bytes are all kept in order and the last is refused |
| `ByteQueue.Queue.constructor` | FREERTOS_OLED1_XPRO_EXAMPLE2/FREERTOS_OLED1_XPRO_EXAMPLE2/src/demotasks.c:185 | the queue starts empty with the given capacity |
| `ByteQueue.Queue.SendFromIsr` | FREERTOS_OLED1_XPRO_EXAMPLE2/FREERTOS_OLED1_XPRO_EXAMPLE2/src/demotasks.c:551-552 | the queue changes exactly as `TrySend` says, and the result reports whether the byte was taken |
| `ByteQueue.Queue.Receive` | FREERTOS_OLED1_XPRO_EXAMPLE2/FREERTOS_OLED1_XPRO_EXAMPLE2/src/demotasks.c:459 | a receive with zero timeout returns the oldest byte and removes it, or returns nothing when the queue is empty |
| `Terminal.Initial` | FREERTOS_OLED1_XPRO_EXAMPLE2/FREERTOS_OLED1_XPRO_EXAMPLE2/src/demotasks.c:131-134 | the static buffer starts zero-filled, with head and column in range |
| `Terminal.NextLine` | FREERTOS_OLED1_XPRO_EXAMPLE2/FREERTOS_OLED1_XPRO_EXAMPLE2/src/demotasks.c:470-471 | the next head line is the following line, or line 0 after the last one |
| `Terminal.Step` | FREERTOS_OLED1_XPRO_EXAMPLE2/FREERTOS_OLED1_XPRO_EXAMPLE2/src/demotasks.c:459-493 | after any byte: head and column stay in range, the head cell holds a terminator, and the last slot of every line is untouched |
| `Terminal.StepCarriageReturn` | FREERTOS_OLED1_XPRO_EXAMPLE2/FREERTOS_OLED1_XPRO_EXAMPLE2/src/demotasks.c:465-474 | a carriage return becomes a terminator, the head advances by one line modulo the line count, the column resets to 0, and no other cell than those two changes |
| `Terminal.StepLineFeed` | FREERTOS_OLED1_XPRO_EXAMPLE2/FREERTOS_OLED1_XPRO_EXAMPLE2/src/demotasks.c:476-478 | a line feed keeps head and column, and only its own cell changes |
| `Terminal.StepPrintable` | FREERTOS_OLED1_XPRO_EXAMPLE2/FREERTOS_OLED1_XPRO_EXAMPLE2/src/demotasks.c:480-489 | any other byte stays in its cell; the column advances, or wraps to column 0 of the next line when the line is full; only the byte's cell and the new head cell change |
| `Terminal.Feed` | FREERTOS_OLED1_XPRO_EXAMPLE2/FREERTOS_OLED1_XPRO_EXAMPLE2/src/demotasks.c:459-494 | after any bytes: the indices stay in range, the last slot of every line is untouched, and the head cell holds a terminator |
| `Terminal.FeedAppend` | FREERTOS_OLED1_XPRO_EXAMPLE2/FREERTOS_OLED1_XPRO_EXAMPLE2/src/demotasks.c:459-494 | handling bytes in two batches gives the same buffer as handling them in one |
| `Terminal.FeedSnoc` | FREERTOS_OLED1_XPRO_EXAMPLE2/FREERTOS_OLED1_XPRO_EXAMPLE2/src/demotasks.c:459-494 | handling one more byte after a batch is one more `Step` |
| `Terminal.LineFeedIsNoOp` | FREERTOS_OLED1_XPRO_EXAMPLE2/FREERTOS_OLED1_XPRO_EXAMPLE2/src/demotasks.c:476-478 | with the terminator at the head, as after every byte, a line feed leaves the whole buffer unchanged |
| `Terminal.EveryLineTerminated` | FREERTOS_OLED1_XPRO_EXAMPLE2/FREERTOS_OLED1_XPRO_EXAMPLE2/src/demotasks.c:131 | from the zero-filled buffer, whatever arrives, every line keeps NUL in its slot at index TERMINAL_COLUMNS |
| `Terminal.FeedPrintable` | FREERTOS_OLED1_XPRO_EXAMPLE2/FREERTOS_OLED1_XPRO_EXAMPLE2/src/demotasks.c:480-489 | printable bytes that fit in the head line are stored in consecutive cells in order, and earlier cells of the line are kept. The column ends just past them. If they fill the line exactly, the head moves to column 0 of the next line without a carriage return |
| `Terminal.FeedCarriageReturns` | FREERTOS_OLED1_XPRO_EXAMPLE2/FREERTOS_OLED1_XPRO_EXAMPLE2/src/demotasks.c:465-474 | n carriage returns advance the head by n lines, wrapping past the last line, and leave the column at 0 |
| `Terminal.RingWrapAround` | FREERTOS_OLED1_XPRO_EXAMPLE2/FREERTOS_OLED1_XPRO_EXAMPLE2/src/demotasks.c:470-471 | after as many carriage returns as there are buffer lines, the head is back where it started |
| `Terminal.CarriageReturnLineFeed` | FREERTOS_OLED1_XPRO_EXAMPLE2/FREERTOS_OLED1_XPRO_EXAMPLE2/src/demotasks.c:464-493 | "ab\r\n" into the fresh buffer leaves the head on an empty line 1 and line 0 holding "ab" and a terminator |
| `Terminal.UartTask.constructor` | FREERTOS_OLED1_XPRO_EXAMPLE2/FREERTOS_OLED1_XPRO_EXAMPLE2/src/demotasks.c:131-134 | the array and indices start as `Initial` says |
| `Terminal.UartTask.HandleByte` | FREERTOS_OLED1_XPRO_EXAMPLE2/FREERTOS_OLED1_XPRO_EXAMPLE2/src/demotasks.c:459-493 | the in-place update of the 2-D array, head and column for one byte is exactly `Step` |
| `Terminal.UartTask.Drain` | FREERTOS_OLED1_XPRO_EXAMPLE2/FREERTOS_OLED1_XPRO_EXAMPLE2/src/demotasks.c:453-496 | one pass empties the queue and leaves the buffer as `Feed` gives for the queued bytes, oldest first |
| `RxHandler.ReceivedByte` | FREERTOS_OLED1_XPRO_EXAMPLE2/FREERTOS_OLED1_XPRO_EXAMPLE2/src/demotasks.c:549-560 | the byte queued and echoed is the DATA value modulo 256 |
| `RxHandler.Decide` | FREERTOS_OLED1_XPRO_EXAMPLE2/FREERTOS_OLED1_XPRO_EXAMPLE2/src/demotasks.c:535-565 | a byte is accepted exactly when RXC is set, no error bit is set and the queue has room; only an accepted byte is echoed, and it is the received byte. A frame error or overflow gets its flags cleared, any other error is ignored, and without RXC nothing happens |
| `RxHandler.CdcRxHandler` | FREERTOS_OLED1_XPRO_EXAMPLE2/FREERTOS_OLED1_XPRO_EXAMPLE2/src/demotasks.c:516-566 | the handler's outcome is `Decide`'s, and the queue gains exactly the echoed byte, or nothing |
| `Pipeline.Next` | FREERTOS_OLED1_XPRO_EXAMPLE2/FREERTOS_OLED1_XPRO_EXAMPLE2/src/demotasks.c:551-561 | an interrupt or a drain pass keeps the queue within 64 bytes and the buffer indices in range |
| `Pipeline.Run` | FREERTOS_OLED1_XPRO_EXAMPLE2/FREERTOS_OLED1_XPRO_EXAMPLE2/src/demotasks.c:185 | any interleaving of interrupts and drain passes keeps the queue within 64 bytes and the buffer indices in range |
| `Pipeline.NextIsFifo` | FREERTOS_OLED1_XPRO_EXAMPLE2/FREERTOS_OLED1_XPRO_EXAMPLE2/src/demotasks.c:551-561 | for one event, the queue followed by the echoed byte equals the drained bytes followed by the new queue |
| `Pipeline.QueueIsFifo` | FREERTOS_OLED1_XPRO_EXAMPLE2/FREERTOS_OLED1_XPRO_EXAMPLE2/src/demotasks.c:185 | over any interleaving, the starting queue followed by every accepted byte equals the bytes the task drained followed by those still queued: nothing is lost, reordered or invented |
| `Pipeline.TerminalFedDrained` | FREERTOS_OLED1_XPRO_EXAMPLE2/FREERTOS_OLED1_XPRO_EXAMPLE2/src/demotasks.c:459-494 | the buffer is the starting buffer fed exactly the drained bytes, in the order they were drained |
| `Pipeline.OrderPreserved` | FREERTOS_OLED1_XPRO_EXAMPLE2/FREERTOS_OLED1_XPRO_EXAMPLE2/src/demotasks.c:459 | in any interleaving, the buffer fed the pending queue equals the starting buffer fed the starting queue and then every accepted byte, in acceptance order |
| `Pipeline.LastDrainEmpties` | FREERTOS_OLED1_XPRO_EXAMPLE2/FREERTOS_OLED1_XPRO_EXAMPLE2/src/demotasks.c:459 | a run that ends with a drain pass leaves the queue empty |
| `Pipeline.DeliveredInOrder` | FREERTOS_OLED1_XPRO_EXAMPLE2/FREERTOS_OLED1_XPRO_EXAMPLE2/src/demotasks.c:459-494 | from an empty queue, after a final drain pass, the buffer is the starting buffer fed exactly the accepted bytes, in order |
| `PinEntry.Recorded` | FREERTOS_OLED1_XPRO_EXAMPLE2/FREERTOS_OLED1_XPRO_EXAMPLE2/src/demotasks.c:265-279 | a poll records at most one entry: button 1 before 2 before 3, and the value is the button's number |
| `PinEntry.Accepts` | FREERTOS_OLED1_XPRO_EXAMPLE2/FREERTOS_OLED1_XPRO_EXAMPLE2/src/demotasks.c:294-296 | four entries are accepted exactly when they sum to 3+1+1+1; the reference itself is accepted |
| `PinEntry.AcceptedPins` | FREERTOS_OLED1_XPRO_EXAMPLE2/FREERTOS_OLED1_XPRO_EXAMPLE2/src/demotasks.c:294 | over button values, exactly the rearrangements of 3,1,1,1 and of 2,2,1,1 are accepted |
| `PinEntry.OtherPinAccepted` | FREERTOS_OLED1_XPRO_EXAMPLE2/FREERTOS_OLED1_XPRO_EXAMPLE2/src/demotasks.c:294 | 1,3,1,1 and 2,2,1,1 differ from the reference and are accepted |
| `PinEntry.Feedback` | FREERTOS_OLED1_XPRO_EXAMPLE2/FREERTOS_OLED1_XPRO_EXAMPLE2/src/demotasks.c:281-314 | one star at two entries and two stars at three. At four, three stars and then the verdict of `Accepts`. Otherwise nothing |
| `PinEntry.Poll` | FREERTOS_OLED1_XPRO_EXAMPLE2/FREERTOS_OLED1_XPRO_EXAMPLE2/src/demotasks.c:265-315 | a poll adds at most one entry at the end and keeps the earlier ones; the reset is requested exactly when the fourth entry arrives |
| `PinEntry.Presses` | FREERTOS_OLED1_XPRO_EXAMPLE2/FREERTOS_OLED1_XPRO_EXAMPLE2/src/demotasks.c:265-279 | the recorded presses are button values, at most one per poll |
| `PinEntry.RunRecordsPresses` | FREERTOS_OLED1_XPRO_EXAMPLE2/FREERTOS_OLED1_XPRO_EXAMPLE2/src/demotasks.c:258-315 | a run records min(4, entries + presses) entries, and they are a prefix of the earlier entries followed by the presses in order, so only indices 0 to 3 are written. The reset is requested exactly when the earlier entries and the presses reach four |
| `PinEntry.RunFromStart` | FREERTOS_OLED1_XPRO_EXAMPLE2/FREERTOS_OLED1_XPRO_EXAMPLE2/src/demotasks.c:258-315 | from no entries, polls whose presses are at most four given values record exactly those values, and request the reset exactly when there are four |
| `PinEntry.PressSequence` | FREERTOS_OLED1_XPRO_EXAMPLE2/FREERTOS_OLED1_XPRO_EXAMPLE2/src/demotasks.c:291-315 | fewer than four presses never request the reset; four presses request it with exactly those entries |
| `PinEntry.PinScenarios` | FREERTOS_OLED1_XPRO_EXAMPLE2/FREERTOS_OLED1_XPRO_EXAMPLE2/src/demotasks.c:294-314 | 1,2,3,1 ends incorrect and 3,1,1,1 correct; both request the reset on the fourth press |
| `PinEntry.MainTask.constructor` | FREERTOS_OLED1_XPRO_EXAMPLE2/FREERTOS_OLED1_XPRO_EXAMPLE2/src/demotasks.c:244-252 | no entries, the reference in `testea`, the menu still to be drawn |
| `PinEntry.MainTask.Record` | FREERTOS_OLED1_XPRO_EXAMPLE2/FREERTOS_OLED1_XPRO_EXAMPLE2/src/demotasks.c:265-279 | `senha[..vari]` grows by exactly the recorded entry |
| `PinEntry.MainTask.Tick` | FREERTOS_OLED1_XPRO_EXAMPLE2/FREERTOS_OLED1_XPRO_EXAMPLE2/src/demotasks.c:258-375 | one loop iteration updates `senha`, `vari` and the reset request exactly as `Poll` does and draws `Feedback`. The about task is resumed on the first iteration that does not reset |
| `About.Blend` | FREERTOS_OLED1_XPRO_EXAMPLE2/FREERTOS_OLED1_XPRO_EXAMPLE2/src/demotasks.c:409-414 | the zoom coordinate is the centre at shift 0 and exactly the target at shift 8, and it always lies between the two |
| `About.DrawFrame` | FREERTOS_OLED1_XPRO_EXAMPLE2/FREERTOS_OLED1_XPRO_EXAMPLE2/src/demotasks.c:407-416 | every character is drawn at its zoomed position. At shift 8 the text sits on its full-size grid, and at shift 0 every glyph is at the canvas centre |
| `About.Animate` | FREERTOS_OLED1_XPRO_EXAMPLE2/FREERTOS_OLED1_XPRO_EXAMPLE2/src/demotasks.c:398-429 | frames are drawn at shift start, start+1, …, 8; then the shift is 0 and the task suspends |

## Left out

- FreeRTOS scheduling and synchronisation are not modelled. This covers the
  mutexes, task delays, suspension and resumption, and priorities. Each
  interrupt and each pass of a task loop is taken as one atomic step.
  Mutual exclusion between tasks is therefore assumed, not proved.
- The FreeRTOS queue internals are not modelled. The queue is a bounded
  sequence of bytes.
- Register-level USART access is reduced to the values the handler reads.
  Left out are the SYNCBUSY spin-wait, the wait for DRE before the echo, and
  the write to STATUS (recorded only as the `ErrorsCleared` outcome).
  `cdc_rx_init` is not part of this model either.
- The STATUS bit values of FERR (0x02) and BUFOVF (0x04) and the 9-bit DATA
  mask come from the SAM D21 device header, which is not part of this
  model. The error code is taken as already masked by
  `SERCOM_USART_STATUS_MASK`.
- All display and LED output is left out: `gfx_mono_*`, `apaga_display`, the
  menu bar layout, the display start line and the LED states. The PIN
  messages are recorded as `Message` values, and glyph positions as values.
- `Reset_Handler()` and `delay_ms` become the `resetRequested` flag.
  `MainTask.Tick` and `PinEntry.Run` run nothing after it.
- `demotasks_init` is left out, including its suspension of the
  never-assigned `terminal_task_handle`. `menu_items_text` is left out too:
  it is constant data with no logic.
- The display and font sizes are not part of this model.
  - `TERMINAL_LINES` and `TERMINAL_COLUMNS` are parameters (`Geometry`).
  - The about task's columns, font size and canvas size are parameters too
    (`Layout`).
- Terminal.Invariant: the model assumes 1 to 255 terminal lines and 1 to 255
  columns. The `uint8_t` head and column fit in that range, and neither can
  wrap around. The firmware's geometry is a compile-time constant.
- Terminal.FeedCarriageReturns: stated for at most TERMINAL_BUFFER_LINES
  carriage returns, which is enough for the ring wrap-around. It is not
  stated for any count modulo the line count.
- About.DrawFrame: the coordinates are unbounded naturals. The truncation
  when they are stored in the 8-bit `gfx_coord_t` is not modelled.
- PinEntry.MainTask.constructor: `senha` starts with arbitrary contents, like
  the uninitialised C array; only the entries below `vari` are ever read.
- The main task's menu selection is always the about screen. Only the
  one-time redraw and resume of the about task is kept, as `resumeAbout`.
