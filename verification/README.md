# Verified models of Zephyr drivers and utilities

This project models the stateful core of a Zephyr tree in Dafny and proves what the code
keeps over whole runs, what it computes against independent definitions, and, where the code
does not meet a natural promise, exactly when it does.

Code that works in place is modelled in place: the ring buffer, the line editor, `line2argv`,
completion, the flash writers, the GPIO expander, printk, the sensor values and the Ethernet
driver's transfers are classes and methods with loops over arrays and fields, each tied to a
specification function or relation. Code whose point is concurrency (the IPM console, the
lock-free use of the ring buffer, the clock reference count, the circulating line buffers, the
banked Ethernet registers) is a state machine whose steps are the atomic sections of the
source, with theorems over every reachable state. Integer widths, wrap-around and C's
truncating division are written out.

| files | what they model |
|---|---|
| `CTypes`, `CStrings`, `Bits`, `Words16`, `Numerals` | fixed-width integers, NUL-terminated strings, bitwise operators, positional numerals |
| `RingLayout`, `RingBuffer`, `RingSpsc` | the ring buffer of variable-length records, and its use by one producer and one consumer without a lock |
| `IpmConsole` | the inter-processor console: sender, receive interrupt and receiver thread |
| `Nrf5Clock` | the nRF5 high-frequency clock reference count |
| `LineEditor`, `LineBuffers`, `ShellArgv`, `ShellCompletion` | the UART line editor, its three buffers, argument splitting and completion |
| `PrintkFormat`, `Printk` | the meaning of printk formats, and the interpreter with its sinks |
| `Nrf5Flash`, `W25qErase` | the two flash writers on NOR memory |
| `Enc28j60Memory`, `Enc28j60Packets`, `Enc28j60Banks`, `Enc28j60Interleaving` | the ENC28J60 Ethernet driver: chunked transfers, framing, and bank selection under all interleavings |
| `Pcal9535a` | the GPIO expander and its register cache under a failing bus |
| `SensorUnits` | unit conversions |

## Findings

- `sys_ring_buf_space_get` reads `head` up to three times. With a reader on another context it
  over-reports the space exactly when the head wraps between the second and the third load
  (`TornSpaceExact`). The lock-free promise of the documentation holds in every interleaving if
  and only if the head is loaded once, or no item carries data, or the ring has a single word
  (`LockFreeExactly`); in the other cases a run from every initial state loses accepted items
  (`ItemsLost`), and queued records can be overwritten (`RecordOverwritten`).
- The console's channel can be lost for good if and only if the receive callback can run
  between the enabling of the channel and the clearing of its flag (`LockNeeded`).
- The console prints lines as C strings, so the lines rebuild the characters consumed if and
  only if none of them is NUL (`EndToEnd`; `NulLost` is a run that loses one).
- A clock start is refused exactly while some stop is between its locked section and its
  release of the guard (`StartRefusedExactly`), so the assertion after the start at a
  calibration timeout does not hold in every run (`StartRefusedSometimes`).
- The range checks of both flash drivers add in 32 bits, and accept some requests outside the
  flash (`AddressValidExactly`, `AddressWraps`, `GuardExact`, `GuardWraps`). A W25Q erase
  clears exactly the requested bytes if and only if the first block command is aligned to its
  own length; otherwise it also erases bytes before the range (`EraseExactly`).
- `spi_flash_wb_erase_internal` ignores a failing write-enable transfer. The first command of
  a request erases all the same, since requests are accepted only with the latch set; a later
  one is then lost while success is reported. A block-aligned request that reports success has
  erased its range if and only if no write-enable after the first failed (`ErasedExactly`,
  `SecondSectorKept`).
- Numbers in ANSI sequences are read modulo 2^32 (`ControlSequence`).
- `snprintk` keeps the size in an `int`: from 0x80000000 up it stores nothing, not even a
  terminator (`SizeLimit`). The comment above `printk` says that %x always prints eight digits
  and %d is unsigned; the code does neither, and the model follows the code.
- After an early exit for want of buffers the Ethernet receiver is no longer aligned to the
  packets in the ring, unless the frame was empty (`Enc28j60Packets.Receiver.ReceivePacket`,
  `RefusedMisaligned`).
- `eth_enc28j60_set_bank` writes back what it read: a transmit request that the device clears
  in between is set again (`RequestRevived`), and one the device does not clear is kept; no
  other of the upper six bits is affected (`BankDiscipline`).
- A GPIO pin write whose I2C transfer fails is still delivered by the next successful write to
  any pin of the same register (`WritesDelivered`). A burst write that fails after its first
  byte can leave `out_pol_inv` different from the chip's polarity: they agree if and only if
  the first byte that last arrived is that of `out_pol_inv` (`PolarityExactly`,
  `PolarityTorn`).
- Gs survive the conversion to m/s^2 and back exactly up to 218982389 either way
  (`GThereAndBack`); angles outside -37480652501435 to 37480652483982 micro-radians come
  back as degrees modulo 2^32 (`DegreesReturned`, `DegreesWrap`).

## Model

| member | source | states |
|---|---|---|
| `RingLayout.UnpackPack` | misc/ring_buffer.c:22-31 | a header survives packing into a word of 16, 8 and 8 bits |
| `RingLayout.PackLayout` | misc/ring_buffer.c:22-31 | type in the low half of the word, then length, then value |
| `RingLayout.FlattenInjective` | misc/ring_buffer.c:33-104 | the words in use determine the queue of records: the encoding is uniquely decodable |
| `RingLayout.HoldsUnique` | misc/ring_buffer.c:33-104 | words, head and tail hold one queue of records and no other |
| `RingLayout.HoldsAppend` | misc/ring_buffer.c:40-58 | once a record's words are stored beyond the tail, moving the tail appends exactly that record |
| `RingLayout.HoldsRemove` | misc/ring_buffer.c:78-101 | the words at the head are the oldest record, and moving the head past them removes exactly it |
| `RingBuffer.Space` | include/misc/ring_buffer.h:153-165 | free words plus used words are one less than the size |
| `RingBuffer.TornSpaceExact` | include/misc/ring_buffer.h:153-165 | separate loads of the head agree with one snapshot exactly when it does not wrap between the last two; otherwise any put is admitted |
| `RingBuffer.MaskSet` | include/misc/ring_buffer.h:117-132 | the mask is set exactly for sizes that are powers of two from 2 up, and is then size - 1 |
| `RingBuffer.Reduce` | misc/ring_buffer.c:46-58 | the mask path and the modulo path give the same index for every size |
| `Bits.PowerOfTwoExactly` | include/misc/util.h:90-93 | the bit test accepts exactly the powers of two |
| `Bits.MaskIsModulo` | include/misc/util.h:90-93 | for every size the bit test accepts, masking with size - 1 is reduction modulo size |
| `Bits.AndBits` | include/misc/util.h:90-93 | a bit of a conjunction is set exactly when it is set in both operands |
| `RingBuffer.RingBuf.constructor` | include/misc/ring_buffer.h:117-132 | an initialised buffer is an empty queue |
| `RingBuffer.RingBuf.Store` | misc/ring_buffer.c:40-56 | header and data land in the free part and the queued words are untouched, at any wrap position |
| `RingBuffer.RingBuf.Put` | misc/ring_buffer.c:33-66 | success exactly when the record fits, appending it; failure changes only the drop count |
| `RingBuffer.RingBuf.CopyOut` | misc/ring_buffer.c:89-101 | the copy loop delivers the oldest record's data and nothing beyond it |
| `RingBuffer.RingBuf.Get` | misc/ring_buffer.c:68-104 | removes and returns the oldest record; empty and too-small cases return their codes, leave or report the length and change nothing |
| `RingSpsc.IndexIsModulo` | misc/ring_buffer.c:46-58 | the index of a step is the source's remainder, also for an item larger than the ring |
| `RingSpsc.StepKeeps` | misc/ring_buffer.c:33-104 | every load of the head and every word access of a put or a get keeps the queue, whatever the other side is in the middle of, except a torn space test: one that sees the head wrap and admits what does not fit |
| `RingSpsc.LockFree` | doc/kernel_v2/other/ring_buffers.rst:46-56 | with one producer and one consumer and no lock, in every interleaving without a torn space test: the records taken out are a prefix, unchanged and in order, of those accepted, each had room in its reader's data area, the words hold the rest, neither side is ever stuck, and every index needs one wrap-around at most |
| `RingSpsc.TornBreaks` | misc/ring_buffer.c:33-66 | from a reachable torn space test the producer alone reaches a state in which the words no longer hold what was accepted |
| `RingSpsc.TornExactly` | include/misc/ring_buffer.h:153-165 | from every initial state and for every bound on an item's data, every reachable state is as promised if and only if no torn space test is reachable |
| `RingSpsc.ItemsLost` | include/misc/ring_buffer.h:153-165 | with three loads such a state is reachable from every initial state of a ring of two words or more, if items may carry one word of data |
| `RingSpsc.LockFreeExactly` | doc/kernel_v2/other/ring_buffers.rst:46-56 | from every initial state, all interleavings keep the promise if and only if the head is loaded once, or no item put carries data, or the ring has one word |
| `RingSpsc.TornAdmits` | include/misc/ring_buffer.h:153-165 | a torn space test lets its item through |
| `RingSpsc.RecordOverwritten` | misc/ring_buffer.c:33-66 | with three loads and no lock a state is reachable in which a queued record has been overwritten |
| `IpmConsole.FlowStep` | drivers/console/ipm_console_receiver.c:46-125 | every interrupt and every thread step keeps the flow-control invariant |
| `IpmConsole.FlowControl` | drivers/console/ipm_console_receiver.c:46-125 | in every interleaving no put and no get fails, semaphore plus item in hand equals the records queued, indices stay in bounds, the thread is never blocked while the channel is closed, and until the thread has made room the channel is closed exactly when the buffer is full |
| `IpmConsole.Reopens` | drivers/console/ipm_console_receiver.c:79-93 | a closed channel reopens within eight steps of the thread |
| `IpmConsole.HandleCuts` | drivers/console/ipm_console_receiver.c:59-77 | the in-place line handling is one step of cutting a text into lines |
| `IpmConsole.GlueSplit` | drivers/console/ipm_console_receiver.c:59-77 | cutting into lines loses nothing: gluing them with their newlines gives the bytes back |
| `IpmConsole.SplitWell` | drivers/console/ipm_console_receiver.c:59-77 | a line ends at the first newline, which it does not hold, or when the buffer is full; the pending part is neither |
| `IpmConsole.CutUnique` | drivers/console/ipm_console_receiver.c:59-77 | there is only one way to cut a stream of bytes into such lines |
| `IpmConsole.SentParts` | drivers/console/ipm_console_sender.c:28-41 | characters are sent one by one: a carriage return not at all, any other as its low byte |
| `IpmConsole.EndToEnd` | drivers/console/ipm_console_sender.c:28-41 | what is consumed is a prefix of what was sent without carriage returns, short of it by exactly the semaphore count and the character about to be fetched; the lines printed and the pending part are those of every cut of it at newlines and full buffers, and rebuild it if and only if no line holds a NUL |
| `IpmConsole.Drains` | drivers/console/ipm_console_receiver.c:46-101 | from every reachable state the thread alone consumes everything sent, within seven steps for each character waiting and six for the one in hand |
| `IpmConsole.NulLost` | drivers/console/ipm_console_receiver.c:59-77 | a reachable state whose lines do not rebuild what was consumed: a NUL sent to a line buffer of two bytes |
| `IpmConsole.LostForever` | drivers/console/ipm_console_receiver.c:79-93 | a channel closed with its flag clear stays closed under every step |
| `IpmConsole.LockNeeded` | drivers/console/ipm_console_receiver.c:83-93 | for every configuration, no reachable state has lost the channel if and only if the callback is kept out between enabling and clearing |
| `Nrf5Clock.StartKeeps` | drivers/clock_control/nrf5_power_clock.c:28-106 | a start keeps the invariant relating count, guard, holders and tasks |
| `Nrf5Clock.StopKeeps` | drivers/clock_control/nrf5_power_clock.c:108-147 | a stop paired with a completed start is never refused and keeps the invariant |
| `Nrf5Clock.Protocol` | drivers/clock_control/nrf5_power_clock.c:28-147 | in every interleaving below 255 references: one guard holder at most, last task is START exactly when the count is positive while the guard is free, tasks alternate, the count is the number of starts not stopped, all count assertions hold and stops return 0 |
| `Nrf5Clock.Returns` | drivers/clock_control/nrf5_power_clock.c:28-147 | a context inside a start or a stop returns within three steps of its own, whatever the others do: it issues its task once and gives back the guard |
| `Nrf5Clock.Settled` | drivers/clock_control/nrf5_power_clock.c:28-147 | when all have returned the guard is free, and the clock was last started exactly if some start is not stopped |
| `Nrf5Clock.StartRefusedExactly` | drivers/clock_control/nrf5_power_clock.c:47-51 | a start returns -EAGAIN exactly while some stop is mid-way |
| `Nrf5Clock.StartRefusedSometimes` | drivers/clock_control/nrf5_power_clock.c:283-299 | such a refusal is reachable, so the assertion on the timeout start can fail |
| `Nrf5Clock.RolloverExactly` | drivers/clock_control/nrf5_power_clock.c:95-99 | the count assertion after one more start fails exactly with 255 references outstanding |
| `Nrf5Clock.CountReached` | drivers/clock_control/nrf5_power_clock.c:28-106 | every count up to 255 is reachable |
| `LineEditor.Console.InsertChar` | drivers/console/uart_console.c:197-223 | the tail moves by one, the character goes in front, the rest is untouched |
| `LineEditor.Console.DeleteChar` | drivers/console/uart_console.c:225-246 | the tail moves back by one, the rest is untouched |
| `LineEditor.Console.Sequence` | drivers/console/uart_console.c:260-295 | the flags keep encoding one mode (nesting of ANSI_FIRST, ANSI_VAL and ANSI_VAL_2) and advance as the automaton does |
| `LineEditor.Console.HandleAnsi` | drivers/console/uart_console.c:260-347 | a byte of an escape sequence has the effect of the two-sided text model |
| `LineEditor.Console.Complete` | drivers/console/uart_console.c:426-430 | completion at the end of the text extends it by what the callback appends |
| `LineEditor.Console.Submit` | drivers/console/uart_console.c:417-425 | at a carriage return the buffer reads, as a C string, as the whole text |
| `LineEditor.Console.Receive` | drivers/console/uart_console.c:386-441 | one round of the interrupt refines one step of the text model, for every byte and state; the cursor stays inside the buffer |
| `LineEditor.Console.ReceiveAll` | drivers/console/uart_console.c:349-443 | for every byte stream the strings queued and the text left are those of the text model |
| `LineEditor.StepClean` | drivers/console/uart_console.c:386-441 | no byte puts a NUL into the text or makes it longer than the buffer allows |
| `LineEditor.StreamClean` | drivers/console/uart_console.c:349-443 | over every stream, submitted lines and edited text are free of NULs and shorter than the buffer |
| `LineEditor.BackspaceLaws` | drivers/console/uart_console.c:409-413 | backspace undoes typing, and equals a step left and a forward delete |
| `LineEditor.LeftRight` | drivers/console/uart_console.c:298-315 | moving right undoes moving left and conversely |
| `LineEditor.ControlSequence` | drivers/console/uart_console.c:260-347 | ESC [ digits and a final byte run that command with the decimal value of the digits modulo 2^32 |
| `LineEditor.TwoNumbers` | drivers/console/uart_console.c:283-287 | a second number after a semicolon makes no difference |
| `LineEditor.ValueIsNumeral` | drivers/console/uart_console.c:270-281 | the value of the digits is that of the decimal numeral |
| `LineEditor.Keys` | drivers/console/uart_console.c:260-347 | ESC [ digits and D, C, H, F or ~ moves the cursor left, right, home or to the end with the text unchanged, or deletes the byte behind it; too large a number and any other final byte do nothing; without digits the number is one |
| `LineEditor.PlainKeys` | drivers/console/uart_console.c:386-441 | what each other byte does: insert while there is room, backspace, complete at the end, submit, begin a sequence, or nothing |
| `LineEditor.TypedInside` | drivers/console/uart_console.c:197-441 | typing, moving left by a number, typing again and CR submits the second text inside the first |
| `LineEditor.Typing` | drivers/console/uart_console.c:438-441 | printable characters that fit are inserted in order and submitted with the text |
| `LineBuffers.IsrConserves` | drivers/console/uart_console.c:380-425 | taking a buffer and queueing a line keep every buffer in exactly one place |
| `LineBuffers.ShellConserves` | drivers/console/console_handler_shell.c:326-364 | so do taking a line and giving it back |
| `LineBuffers.BuffersConserved` | drivers/console/console_handler_shell.c:79-86 | in every run each of the three buffers is in exactly one place, and the strings taken by the shell followed by those waiting are the lines typed, in order, whatever the shell writes into the buffer it holds |
| `LineBuffers.DroppedExactly` | drivers/console/uart_console.c:380-384 | a byte is dropped exactly when the lines queue and the shell hold all three buffers, and only between lines |
| `LineBuffers.Recovers` | drivers/console/console_handler_shell.c:331-363 | once the shell has finished a line the next byte is accepted |
| `ShellArgv.StartsExact` | drivers/console/console_handler_shell.c:88-129 | the recorded starts are exactly the positions where a space-free run begins |
| `ShellArgv.Line2Argv` | drivers/console/console_handler_shell.c:88-129 | exactly the maximal space-free runs in order, each terminated in place, argv[argc] NULL; 0 exactly when there are none or at least size of them |
| `ShellArgv.ArgumentsReadBack` | drivers/console/console_handler_shell.c:88-129 | every argument reads back as the run it was in the line |
| `ShellCompletion.GetDestination` | drivers/console/console_handler_shell.c:131-144 | the first module of that name, and -1 exactly if there is none |
| `ShellCompletion.FindTarget` | drivers/console/console_handler_shell.c:366-421 | module and prefix found in the buffer are those of the typed line |
| `ShellCompletion.TargetExactly` | drivers/console/console_handler_shell.c:366-421 | a line asks for prefix p of module m if and only if, with m the default module, it is spaces and the word p, or with none it is spaces, a name of 1 to 18 bytes whose first module is m, one space and p |
| `ShellCompletion.Scan` | drivers/console/console_handler_shell.c:445-478 | the loop finds the first match and the length of the longest common prefix of all matches |
| `ShellCompletion.CommonIsLongest` | drivers/console/console_handler_shell.c:463-475 | that length measures a common prefix and no common prefix is longer |
| `ShellCompletion.ExtensionMeaning` | drivers/console/console_handler_shell.c:423-507 | no match appends nothing, one match gives the name and a space, several give the longest prefix common to all |
| `ShellCompletion.AppendedMeaning` | drivers/console/console_handler_shell.c:423-507 | what a line gets: nothing if it asks for nothing or no command matches, the rest of the name and a space if one does, and what makes the prefix the longest common one if several do |
| `ShellCompletion.Complete` | drivers/console/console_handler_shell.c:423-507 | the line grows by exactly that, the number of bytes is returned, and no other byte but the terminator changes |
| `ShellCompletion.CompletionFits` | drivers/console/console_handler_shell.c:431-439 | completion always fits the line and appends no NUL, so the line editor may use it |
| `ShellCompletion.CompletedLineParses` | drivers/console/console_handler_shell.c:88-129 | a line completed to a unique command splits into that command, after its module's name if none is selected |
| `Numerals.NumeralUnique` | misc/printk.c:228-287 | a digit string without leading zeros that denotes n is the numeral of n |
| `Numerals.DigitsLength` | misc/printk.c:228-287 | a number has at most k digits exactly when it is below the base to the k |
| `PrintkFormat.NumberReadsBack` | misc/printk.c:228-287 | a printed number reads back as itself, whatever base, padding and width |
| `PrintkFormat.NumberShape` | misc/printk.c:228-287 | its length is the larger of the digit count and the width cut at 10 or 8; padding in front, no leading zero behind it |
| `PrintkFormat.SignedReadsBack` | misc/printk.c:115-127 | a number printed with %d reads back with its sign |
| `PrintkFormat.WidthRead` | misc/printk.c:97-109 | a width written in decimal is read as that width |
| `PrintkFormat.ModifiersRead` | misc/printk.c:110-114 | any run of z, l and h inside a directive has no effect |
| `PrintkFormat.Letters` | misc/printk.c:115-171 | what each conversion letter prints: d and i signed, u unsigned, both decimal in at most ten columns, x and X hexadecimal in at most eight, p eight digits behind 0x, s a string, c a character, %% a percent sign, any other letter itself behind a percent sign |
| `PrintkFormat.DirectiveMeaning` | misc/printk.c:97-172 | a directive with or without flag and width, any run of z, l and h, and a conversion prints its argument accordingly, and takes one argument exactly if it is one of the eight converting letters |
| `PrintkFormat.FormatMeaning` | misc/printk.c:78-177 | a format of plain text and directives prints its parts in order, the j-th converting directive with the j-th argument |
| `PrintkFormat.SpelledHex` | misc/printk.c:228-250 | 0xBEEF is printed as beef |
| `PrintkFormat.SpelledDecimal` | misc/printk.c:261-287 | 90210 in seven zero-padded columns is printed as 0090210 |
| `PrintkFormat.ConcatExactly` | misc/printk.c:78-177 | the output of a concatenation is the concatenation of the outputs, for every second part, if and only if the first part ends outside a directive |
| `Printk.Out.CharOut` | misc/printk.c:183-187 | every character is counted and shown |
| `Printk.Out.StrOut` | misc/printk.c:295-309 | characters are stored while they leave room for a NUL, the NUL takes the last place, all are counted |
| `Printk.HexUlong` | misc/printk.c:228-250 | the nibble loop sends the padded hexadecimal numeral |
| `Printk.DecUlong` | misc/printk.c:261-287 | the division loop sends the padded decimal numeral |
| `Printk.Convert` | misc/printk.c:115-171 | the switch sends what the conversion means |
| `Printk.Vprintk` | misc/printk.c:78-177 | for every format and argument list, exactly the output the format means is sent, to either sink |
| `Printk.PrintToConsole` | misc/printk.c:207-217 | the console shows that output and its length is returned |
| `Printk.PrintToBuffer` | misc/printk.c:311-338 | the same length is returned; the buffer gets the first characters that fit and a NUL, and nothing else changes |
| `Printk.StoredReads` | misc/printk.c:295-325 | the buffer then reads as the output cut one short of the size |
| `Printk.SizeLimit` | misc/printk.c:289-325 | the truncation promise holds for sizes below 0x80000000; from there on nothing is stored |
| `Nrf5Flash.AddressValidExactly` | drivers/flash/soc_flash_nrf5.c:32-40 | the check accepts the ranges inside the flash and those whose end overflows into it |
| `Nrf5Flash.AddressWraps` | drivers/flash/soc_flash_nrf5.c:32-40 | a request outside the flash that is accepted |
| `Nrf5Flash.InsideRange` | drivers/flash/soc_flash_nrf5.c:61-142 | a range inside the flash meets exactly its own bytes, so 32-bit addressing is invisible there |
| `Nrf5Flash.PatchWord` | drivers/flash/soc_flash_nrf5.c:75-92 | read, patch and reprogram of a word changes the patched bytes only |
| `Nrf5Flash.ProgramBits` | drivers/flash/soc_flash_nrf5.c:75-109 | programming leaves a bit set exactly when it was set and is set in the data |
| `Nrf5Flash.Flash.WriteWords` | drivers/flash/soc_flash_nrf5.c:72-109 | unaligned head, whole words and tail together program exactly the range, at 32-bit addresses |
| `Nrf5Flash.Flash.Write` | drivers/flash/soc_flash_nrf5.c:61-112 | for every address and length: exactly the bytes of the flash that the range meets become old AND data while writing is enabled, all others stay; protected flash and refused ranges do not change |
| `Nrf5Flash.Flash.Read` | drivers/flash/soc_flash_nrf5.c:49-59 | for every address and length: returns what the bus reads over the range, or the error and an untouched buffer |
| `Nrf5Flash.Flash.Erasable` | drivers/flash/soc_flash_nrf5.c:114-131 | the checks accept exactly a positive number of whole pages from a page boundary in an accepted range |
| `Nrf5Flash.Flash.Erase` | drivers/flash/soc_flash_nrf5.c:114-142 | for every address and size: exactly such requests succeed and set exactly the bytes of the flash that the range meets; writing is disabled afterwards |
| `Nrf5Flash.EraseWriteRead` | drivers/flash/soc_flash_nrf5.c:49-142 | data written with writing enabled over erased bytes reads back, the other erased bytes stay erased, and bytes outside the erased range are as before |
| `Nrf5Flash.EraseWriteReadBack` | drivers/flash/soc_flash_nrf5.c:49-154 | the same through the driver's calls, with the protection lifted and restored: every call succeeds and the buffer holds the data |
| `W25qErase.GuardExact` | drivers/flash/spi_flash_w25qxxdv.c:295-299 | an accepted request lies inside the flash exactly when its end does not overflow 32 bits |
| `W25qErase.GuardWraps` | drivers/flash/spi_flash_w25qxxdv.c:295-299 | a request outside the flash that is accepted |
| `W25qErase.Flash.EraseBlock` | drivers/flash/spi_flash_w25qxxdv.c:233-285 | write-enable and one erase command, the new state of chip and bus for every combination of failing transfers, and the result of the second transfer alone |
| `W25qErase.Flash.EraseLoop` | drivers/flash/spi_flash_w25qxxdv.c:316-345 | on every bus, for requests inside the flash and requests that wrap: the planned commands up to the first that fails, each behind its own write-enable, and the matching return code; the loop ends |
| `W25qErase.Flash.Erase` | drivers/flash/spi_flash_w25qxxdv.c:287-350 | for every request and every bus: negative or unaligned ones and ones beyond the flash return -ENODEV and change nothing; accepted ones do the planned commands up to the first that fails and return 0 exactly when they lie inside the flash and none failed |
| `W25qErase.ClearExactly` | drivers/flash/spi_flash_w25qxxdv.c:275-284 | no command fails exactly when no second transfer of a command fails, whatever the write-enables do |
| `W25qErase.NoFaults` | drivers/flash/spi_flash_w25qxxdv.c:287-350 | on a bus without faults every command takes effect and directly follows its write-enable |
| `W25qErase.CommandDelivered` | drivers/flash/spi_flash_w25qxxdv.c:245-284 | a delivered command erases its block if its own write-enable arrived or the latch was still set, and otherwise does nothing |
| `W25qErase.ErasedExactly` | drivers/flash/spi_flash_w25qxxdv.c:287-350 | a block-aligned request inside the flash that reports success has erased its range, for every content, if and only if no write-enable after the first failed |
| `W25qErase.SecondSectorKept` | drivers/flash/spi_flash_w25qxxdv.c:249-285 | two sectors, second write-enable failing: success is reported and the second sector keeps its contents |
| `W25qErase.PlanTiles` | drivers/flash/spi_flash_w25qxxdv.c:316-345 | the commands tile the request in order without gap or overlap |
| `W25qErase.CommandBytes` | drivers/flash/spi_flash_w25qxxdv.c:253-284 | the bytes sent: 0x20, 0x52 or 0xD8 and the address, highest byte first, or 0x60 alone |
| `W25qErase.CommandErases` | drivers/flash/spi_flash_w25qxxdv.c:275-284 | a command erases the aligned block around its address |
| `W25qErase.BlocksErase` | drivers/flash/spi_flash_w25qxxdv.c:316-345 | on an aligned range every command sits on its own block size and together they erase exactly the range |
| `W25qErase.Aligned64K` | drivers/flash/spi_flash_w25qxxdv.c:316-345 | a request from a multiple of 64K is aligned |
| `W25qErase.EraseExactly` | drivers/flash/spi_flash_w25qxxdv.c:287-350 | for every content, the bytes erased are those requested if and only if the request is aligned |
| `Enc28j60Memory.Driver.ReadMem` | drivers/ethernet/eth_enc28j60.c:164-196 | segments of 128 and a rest read exactly the next bytes of the ring, without overrunning the SPI buffer |
| `Enc28j60Memory.Driver.WriteMem` | drivers/ethernet/eth_enc28j60.c:133-162 | segments and rest write exactly the bytes, one after the other |
| `Enc28j60Memory.PokeAt` | drivers/ethernet/eth_enc28j60.c:133-162 | each byte written lands in its place and nothing else changes |
| `Enc28j60Packets.FreedBefore` | drivers/ethernet/eth_enc28j60.c:523-530 | for every even next-packet address the value for ERXRDPT is odd, in the receive area and just before it |
| `Enc28j60Packets.Receiver.ReadFragments` | drivers/ethernet/eth_enc28j60.c:547-579 | the fragments concatenate to the bytes in the ring; complete exactly when there are buffers with room for the frame |
| `Enc28j60Packets.Receiver.ReceivePacket` | drivers/ethernet/eth_enc28j60.c:510-606 | a round reads the header, never more than the frame, all of it and the padding exactly when the buffers could be had; after a stored packet the read pointer is at the next one if and only if they could be had or the frame was empty |
| `Enc28j60Packets.Receiver.ReceiveAll` | drivers/ethernet/eth_enc28j60.c:498-610 | while further packets arrive, with buffers for each, the frames stored are delivered exactly and in order until none is pending, the next read starts behind the last, and the ring is freed up to there |
| `Enc28j60Packets.AlignedExactly` | drivers/ethernet/eth_enc28j60.c:539-592 | the bytes a round reads reach the next packet exactly when the whole frame was read with its padding or is empty |
| `Enc28j60Packets.RefusedMisaligned` | drivers/ethernet/eth_enc28j60.c:539-545 | a stored frame and a refused buffer after which the next read is not at the next packet |
| `Enc28j60Packets.Transmitter.Transmit` | drivers/ethernet/eth_enc28j60.c:418-474 | memory from the start of the transmit area is the control byte and the packet's bytes |
| `Enc28j60Packets.PacketLaidOut` | drivers/ethernet/eth_enc28j60.c:444-474 | a packet that fits stands between control byte and end address, and no other byte of the memory changes |
| `Enc28j60Packets.EndIsLast` | drivers/ethernet/eth_enc28j60.c:471-474 | ETXND is the address of the last byte written exactly when a fragment carries the link-layer header and the end stays in the memory |
| `Enc28j60Banks.CommonRegisters` | drivers/ethernet/eth_enc28j60_priv.h:24-29 | the registers mapped into every bank are EIE, EIR, ESTAT, ECON2 and ECON1 |
| `Enc28j60Banks.SetBankKeeps` | drivers/ethernet/eth_enc28j60.c:41-59 | the byte written back selects the bank and keeps the upper six bits |
| `Enc28j60Banks.InitOk` | drivers/ethernet/eth_enc28j60.c:198-416 | the whole initialisation selects the right bank before every banked access, for all polling counts and both duplex modes |
| `Enc28j60Banks.TxOk` | drivers/ethernet/eth_enc28j60.c:418-496 | so does a transmission, for every number of fragments and polls |
| `Enc28j60Banks.RoundOk` | drivers/ethernet/eth_enc28j60.c:498-635 | so does a round of the receive thread, for every sequence of packets |
| `Enc28j60Banks.TxCounts` | drivers/ethernet/eth_enc28j60.c:418-496 | a transmission writes write pointer, start and end once each, moves the control byte and each fragment, and resets and requests once |
| `Enc28j60Banks.RxCounts` | drivers/ethernet/eth_enc28j60.c:498-610 | receiving frees the ring, decrements the packet counter and reads it once for each packet |
| `Enc28j60Banks.BitSet` | drivers/ethernet/eth_enc28j60.c:100-114 | setting a bit of ECON1 sets it and leaves the others |
| `Enc28j60Banks.BitCleared` | drivers/ethernet/eth_enc28j60.c:117-132 | clearing a bit of ECON1 clears it and leaves the others |
| `Enc28j60Interleaving.NextKeeps` | drivers/ethernet/eth_enc28j60.c:41-131 | every SPI transfer, semaphore operation and call of every thread keeps the bank invariant |
| `Enc28j60Interleaving.BankDiscipline` | drivers/ethernet/eth_enc28j60.c:41-635 | in every interleaving of initialisation, any number of transmitters and the receiver, a banked register is accessed only with its bank selected, and selecting a bank keeps the upper six bits of ECON1 if and only if the transmit request is as it was read; no other of them ever changes |
| `Enc28j60Interleaving.UpperExactly` | drivers/ethernet/eth_enc28j60.c:41-59 | that equivalence for the byte written back |
| `Enc28j60Interleaving.ReceptionStaysEnabled` | drivers/ethernet/eth_enc28j60.c:398-408 | once the initialisation has given its semaphore, the receive-enable bit is set in every reachable state |
| `Enc28j60Interleaving.TransmitsOutOfReset` | drivers/ethernet/eth_enc28j60.c:434-478 | in every interleaving the transmit logic is out of reset whenever tx_rx_sem is free and whenever a transmission is requested, which comes only after a reset under the same semaphore; each operation changes the bits of ECON1 it names and no others |
| `Enc28j60Interleaving.RequestRevived` | drivers/ethernet/eth_enc28j60.c:41-59 | a run in which the device clears a transmit request between the read and the write of a bank selection, which sets it again |
| `Enc28j60Interleaving.NoDeadlock` | drivers/ethernet/eth_enc28j60.c:41-635 | in every reachable state with a call under way some thread can move |
| `Pcal9535a.WrittenPins` | drivers/gpio/gpio_pcal9535a.c:422-450 | the mask arithmetic of a write, read pin by pin |
| `Pcal9535a.Expander.constructor` | drivers/gpio/gpio_pcal9535a.c:577-584 | cache and chip start with the same defaults |
| `Pcal9535a.Expander.WritePortRegs` | drivers/gpio/gpio_pcal9535a.c:124-146 | the pair is taken whole, not at all, or up to its first byte, as the bus decides |
| `Pcal9535a.Expander.Drive` | drivers/gpio/gpio_pcal9535a.c:158-198 | the mask arithmetic of the setup functions gives exactly the selected pins the level, and any other access changes nothing |
| `Pcal9535a.Expander.Setup` | drivers/gpio/gpio_pcal9535a.c:158-346 | a setup function: the cache takes the setting whatever the bus does, the chip what the bus lets through, out_pol_inv an accepted polarity alone |
| `Pcal9535a.Expander.SetupPulls` | drivers/gpio/gpio_pcal9535a.c:210-291 | selection, if a pull is asked for, before enabling; stopping at a failure |
| `Pcal9535a.Expander.Config` | drivers/gpio/gpio_pcal9535a.c:358-396 | direction, polarity and pulls up to the first failure: the whole new state on every path, and success exactly when every needed write succeeded |
| `Pcal9535a.ConfiguredPins` | drivers/gpio/gpio_pcal9535a.c:158-396 | after a configuration whose writes succeed each selected pin is input or output, inverted or not, pulled up, down or not at all, as asked; other pins and the levels are as before; chip, cache and out_pol_inv agree |
| `Pcal9535a.ConfigStops` | drivers/gpio/gpio_pcal9535a.c:358-396 | a configuration stops at the first write that fails and leaves what comes after it as before |
| `Pcal9535a.Expander.Write` | drivers/gpio/gpio_pcal9535a.c:408-456 | the cache takes the levels whatever the bus does, the chip what the bus lets through; the error cases change nothing |
| `Pcal9535a.Expander.Operate` | drivers/gpio/gpio_pcal9535a.c:358-456 | the state after any sequence of operations on any bus is the one the following rows are about |
| `Pcal9535a.OperatedTries` | drivers/gpio/gpio_pcal9535a.c:358-456 | the transfers of a run are those its operations and the bus outcomes call for |
| `Pcal9535a.OperatedTold` | drivers/gpio/gpio_pcal9535a.c:124-146 | after every run cache, chip and out_pol_inv are functions of the transfers made |
| `Pcal9535a.SeenTold` | drivers/gpio/gpio_pcal9535a.c:358-456 | the word last sent to a register, the last that arrived and the last confirmed are those computed from operations and bus outcomes alone |
| `Pcal9535a.DeviceSeen` | drivers/gpio/gpio_pcal9535a.c:358-456 | after every run the cache holds the word last sent, the chip the first byte last arrived and the second last confirmed, and out_pol_inv the polarity last confirmed |
| `Pcal9535a.CacheExactly` | drivers/gpio/gpio_pcal9535a.c:358-456 | so a register is in the cache as in the chip if and only if the first byte last sent is the one last arrived and the second the one last confirmed |
| `Pcal9535a.CacheAgrees` | drivers/gpio/gpio_pcal9535a.c:358-456 | in particular a register whose last write succeeded |
| `Pcal9535a.PolarityExactly` | drivers/gpio/gpio_pcal9535a.c:303-346 | after every run out_pol_inv is the last polarity confirmed, and equals the chip's if and only if the first byte that last arrived is its own |
| `Pcal9535a.PolarityFollows` | drivers/gpio/gpio_pcal9535a.c:303-346 | in particular they agree unless a torn write was the last to reach the chip |
| `Pcal9535a.PolarityTorn` | drivers/gpio/gpio_pcal9535a.c:303-346 | a run with a torn polarity write after which they differ |
| `Pcal9535a.WritesDelivered` | drivers/gpio/gpio_pcal9535a.c:408-456 | after a run of writes the cache has all of them, failed ones included, and a last one that succeeds delivers them all |
| `Pcal9535a.PortIsPins` | drivers/gpio/gpio_pcal9535a.c:422-450 | one port write leaves what pin writes of its bits leave, in any order, exactly when the pins not written already agree |
| `SensorUnits.SensorValue.FromG` | include/sensor.h:424-429 | whole and micro part have the sign of the product, the micro part is less than a unit, together they are the product modulo 2^32 units, and exactly it up to 218982389 either way |
| `SensorUnits.SensorValue.FromDegrees` | include/sensor.h:455-460 | the radians are within one micro-radian of the exact angle, towards zero, for every int32_t |
| `SensorUnits.SensorValue.ToG` | include/sensor.h:407-416 | the nearest whole number of Gs, ties away from zero, no intermediate leaving 64 bits |
| `SensorUnits.SensorValue.ToDegrees` | include/sensor.h:438-447 | the nearest whole number of degrees modulo 2^32, and that number if and only if the angle is from -37480652501435 to 37480652483982 micro-radians, no intermediate leaving 64 bits |
| `SensorUnits.GIsNearest` | include/sensor.h:407-416 | the result is the one nearest whole number of Gs, ties away from zero |
| `SensorUnits.DegreesAreNearest` | include/sensor.h:438-447 | the quotient is the one nearest whole number of degrees, ties away from zero |
| `SensorUnits.DegreesFit` | include/sensor.h:438-447 | those are the angles whose degrees fit an int32_t |
| `SensorUnits.DegreesReturned` | include/sensor.h:438-447 | the narrowed quotient is the nearest whole number exactly for those angles |
| `SensorUnits.DegreesWrap` | include/sensor.h:438-447 | a value whose degrees do not fit |
| `SensorUnits.DegreesThereAndBack` | include/sensor.h:438-460 | degrees to radians and back, through both functions, is the identity on every int32_t |
| `SensorUnits.GThereAndBack` | include/sensor.h:407-429 | Gs to m/s^2 and back, through both functions, is the identity exactly up to 218982389 either way |
| `SensorUnits.GFits` | include/sensor.h:424-429 | those are the Gs whose whole part in m/s^2 fits an int32_t |

## Left out

- Kernel objects: semaphores and queues are counters, holders and sequences; priorities, timeouts and the scheduler are not modelled.
- Echo, cursor-positioning output, logging, busy waits and power management, which do not touch the modelled state.
- The console input hooks and the application prompt and command handlers; a missing completion callback is one that appends nothing.
- IPM: the mailbox is modelled as one interrupt per character sent, delivered while the channel is open; other IPM drivers' own buffering is not.
- RingBuffer.RingBuf.Put: the data is a sequence of at most 255 words, since the length is passed in 8 bits; aliasing of the data with the buffer is excluded.
- Ring buffer without a lock: word accesses take effect in program order, one at a time; reordering by compiler or processor is not modelled.
- Nrf5Clock.Protocol: stops are paired with starts that have returned, and no start is made with 255 references outstanding; RolloverExactly says what happens otherwise.
- LineEditor.Console.Receive: the buffer size is a parameter of at most 256, since the cursor fields are 8 bits wide.
- Command dispatch, help and module selection of the shell, which would only add table lookups.
- Printk.Vprintk: counts and widths are unbounded integers, `char` is unsigned and `long` has 32 bits; %d of the most negative value is given its two's complement result, which C leaves undefined.
- nRF5 flash: the memory is byte-addressed, the page size divides the 32-bit address space, addresses beyond the flash read as a parameter says and ignore writes, and the wait loops of the controller are not modelled; a read buffer is not itself flash.
- W25Q read, write, protection and identification; the outcome of selecting the chip is a parameter of Erase. The flash size is between 64K and 16M.
- ENC28J60: PHY contents, filters, MAC addresses and link state; registers other than ECON1 and the memory addresses carry no values. Waiting for the device is any number of polls.
- The legacy copy of the Ethernet driver.
- PCAL9535A: reading inputs, callbacks, interrupts and drive strength; the byte order of the register union is that of a little-endian machine.
- The floating-point and fixed-point forms of sensor values.
- All other drivers, the kernel headers, scripts and documentation of the tree.
