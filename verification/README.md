# Motor controller firmware: verified model

This project models the algorithmic core of the brushless motor controller firmware and proves what
that code is for. Code that updates state in place is modelled as classes and methods over fields
and arrays, each proved against a specification on values; the properties are lemmas about those
specifications, or methods that drive the model through whole runs.

| files | source | what it is about |
|---|---|---|
| `EepromLog.dfy`, `Eeprom.dfy` | `eeprom.c` | a key/value store on two flash pages, with page transfer and recovery from power loss |
| `Complex.dfy`, `Dft.dfy`, `Fft.dfy`, `DigitalFilter.dfy`, `FftInverse.dfy`, `DftLaws.dfy` | `digital_filter.c` | the in-place FFT against the direct DFT and against its inverse, what the sums do to a signal, and the ring-buffer FIR filter |
| `Crc.dfy`, `CrcDivision.dfy`, `CrcOrder.dfy` | `crc.c` | the table-driven CRC (section 2 of ITU-T V.41) against long division, and which errors it detects |
| `Framing.dfy`, `Packet.dfy` | `packet.c` | the serial framing encoder, decoder and timeout |
| `FrameErrors.dfy`, `HeaderErrors.dfy`, `StartByteErrors.dfy` | `packet.c` | what the receiver makes of damaged frames |
| `Reassembly.dfy`, `Can.dfy`, `NrfDriver.dfy` | `comm_can.c`, `nrf/nrf_driver.c` | fragmentation and reassembly over CAN and radio |
| `Servo.dfy` | `servo.c` | the servo pulse scheduler and its interrupt |
| `Svm.dfy` | `mcpwm_foc.c` | from the requested voltage vector through saturation and rotation to space-vector modulation |
| `Tachometer.dfy`, `DutyLaws.dfy`, `Mcpwm.dfy` | `mcpwm.c` | commutation and step counters, the duty cycle control step, and the state machine around it |
| `Bits.dfy`, `Bytes.dfy`, `Utils.dfy` | `utils.c`, `utils.h` | bitwise and on integers, bytes, memcpy, and the float helpers |

`dafny verify dfyconfig.toml` verifies all of it.

## How the code is modelled

- Floats are exact reals. The square root, cosine and sine of the C library are parameters with the
  laws the code relies on (`IsSqrt`, `IsTrig`); 1/sqrt(3) is any positive number whose
  square is 1/3. Truncating conversions to integers, C's truncating `%`, one-byte lengths and
  bit masks stay as they are.
- Which flash operations of the store fail is an input, a list of faults that the two flash primitives
  use up one by one (`Store.NextFails`); a failed operation has no effect, and every caller returns at
  once on failure. All results hold for every list, and those on completion say how many failures they
  allow. A failed operation and a power loss just before it leave the same flash, so the clauses
  for a failed call speak about a power loss between any two flash operations. Programming clears
  bits, one half-word is programmed or not, an erase happens or not. The blank check looks at
  half-words where the code looks at bytes.
- `Recovered` gives every flash state its meaning as a map, from the two headers and a replay of the
  records, without reference to the scanning code.
- Outputs of the protocol code (`send_func`, `process_func`, CAN and radio transmission, the commands
  module) are logs. Timer ticks are events between bytes.
- The servo scheduler takes the sorted copy as an argument: `qsort` is represented by its result. Port
  masks are sets of pins.
- The motor controller takes the readings of sensors, and the outcomes of the analog comparisons that
  decide when to commutate, as parameters of the interrupt, in any combination. Each command, thread
  round and interrupt is one atomic event. Ghost histories record every counted step and every full
  brake entry, a brake entry with the configuration in force.
- A method here that is one part of a longer C function (for instance `Store.FillNewPage`,
  `Handler.HeaderByte`, `Motor.Regulate`) says so in its comment or in its row.

## Where the code does not do what one would expect

- EEPROM recovery marks the receiving page valid and erases the other one afterwards
  (`eeprom.c:140-152`, `eeprom.c:231-244`). Power lost in between leaves two valid pages, which the
  next start formats (`eeprom.c:184-194`). `Store.Init` and `Store.WriteRun` prove that this is
  the only window in which a power loss between flash operations loses values. The regular transfer erases first and has no such window.
- A write that completes while a transfer is still waiting for recovery, or with two valid pages, goes
  to a page that reads do not look at. `Store.WriteThenRead` proves exactly when a completed write can
  be read back at once, and `Store.WriteDuringTransfer` when it is read back after the recovery, which
  copies an older value over it exactly under `Eeprom.Overwritten`, whatever was written during the same
  transfer before; `Eeprom.CutTransfer` is a store where that happens.
- Every recovery that is cut may use up slots of the receiving page. Once the page is full and a variable
  still has to be copied, the store is stuck: every later recovery and write reports a full page and
  changes nothing (`Store.RetryStuck`). `Eeprom.StuckRun` is a run of cut recoveries that ends there; after one
  interrupted write it takes at least 25 (`Store.Recover`).
  Short of that, a recovery without a failing flash operation completes if and only if the page has a free slot for
  each variable that it has to copy (`Eeprom.HasRoom`, `Store.Init`).
- With a valid page 0, recovery takes every unknown header on page 1 for a receiving one
  (`eeprom.c:204-244`): it appends copies to page 0, marks page 1 valid and erases page 0
  (`Eeprom.ForeignOutcome`, stated by `Store.Init`). With a valid page 1 it formats instead.
- A format that is cut after its first erase can bring old values back: with two valid pages, which
  stand for the empty map, the map is then that of page 1 (`Eeprom.FormatCutSpec`, `Eeprom.CutFormat`).
- A transfer carries over table addresses only. The table is filled for `sizeof(app_configuration)`
  half-words of motor configuration (`conf_general.c:50-52`), while motor configurations are stored and
  read over `sizeof(mc_configuration)` (`conf_general.c:320`). "The address is in the table" is
  therefore a hypothesis of the survival results, and `Written` shows what happens to other addresses.
- A payload of 256 bytes gets the one-byte length 0 (`packet.c:57`) and is never delivered as sent:
  `Framing.RoundTripIff`.
- The CRC does not protect the header of a frame (`packet.c:57-63`). If the start byte or a length byte is damaged,
  the receiver can take the first bytes of the payload for a shorter frame, which may have a matching CRC:
  `HeaderErrors.Shortened` describes such payloads, and one wrong bit is enough (`HeaderErrors.OneBitMisread`).
  Behind the header, every burst of at most 16 bits, every two wrong bits and every odd number of them are detected
  (`FrameErrors.BodyErrors`). `HeaderErrors.ClassSafeIff` and `HeaderErrors.WindowSafeIff` prove that the header is
  exactly what has to be excluded.
- A damaged start byte and length can even give an accepted frame of the same length.
  `StartByteErrors.TakenWholeIff` proves for which payloads one burst of at most 16 bits can do that.
- Two wrong bits at a distance of a multiple of 32767 cancel out: `CrcOrder.TwoBitErrors`. No message of
  the protocols is that long.
- `servo.c:250` reads the sorted copy at index `j` before it compares `j` with the number of servos, so
  every schedule build ends with a read one past the end. `Driver.BuildSchedule` proves that the last
  index read is SERVOS_NUM and that the schedule does not depend on the value there.
- The duty cycles can exceed the configured maximum `l_max_duty`, in two ways. `mcpwm_set_duty_noramp` stores
  its argument unclamped in a running motor (`mcpwm.c:554-556`), and `mcpwm_set_configuration` does not clamp
  what is already set (`mcpwm.c:478-488`). `Mcpwm.UnboundedDuty` and `Mcpwm.SmallerMaximum` show both on a new
  motor. `Mcpwm.InRangeIff` and `Mcpwm.Run` prove that these are the only two: the duty cycles stay in range
  over a run if and only if every such command to a running motor is within the maximum, and every new
  configuration allows the duty cycles that are set when it comes (`Mcpwm.Harmless`). The timer itself is
  capped by the current maximum all the same (`Motor.Follows`).
- `mcpwm_set_brake_current` switches to current-brake mode but compares with the plain full brake limit
  (`mcpwm.c:642`), not with the limit that `set_duty_cycle_ll` uses in that mode (`mcpwm.c:957-962`).
  `Mcpwm.ModeLimitExact` says for which configurations this matters, `Mcpwm.BrakeAboveModeLimit` shows it.

## Model

| member | source | states |
|---|---|---|
| EepromLog.ProgramSpec | eeprom.h:60-62 | programming can only clear bits: an erased half-word takes any value, a receive mark can become the valid mark |
| EepromLog.RemarkSpec | eeprom.h:60-62 | programming the receive mark over a receive or valid mark changes nothing |
| EepromLog.UsedIs | eeprom.c:483-509 | the scan for the first free record slot finds the one slot before which everything is used |
| EepromLog.ContentsOfUsed | eeprom.c:293-316 | used slots form a prefix, so the log's meaning only depends on them |
| EepromLog.ReplayOther | eeprom.c:293-316 | scanning from the newest record down, records with other addresses do not matter for the value of an address |
| EepromLog.NewestRecord | eeprom.c:293-316 | the layout of a record, data half-word before address half-word from the third half-word on: a page has a value for exactly the addresses of its records, and it is the data of the last one |
| EepromLog.AppendSpec | eeprom.c:483-501 | a complete append changes exactly one entry of the map and uses exactly one slot |
| EepromLog.TornAppendSpec | eeprom.c:488-499 | power lost between the data and the address half-word leaves the map alone and uses at most one slot |
| EepromLog.HeaderSpec | eeprom.c:140-146 | rewriting the header of a marked page changes neither its contents nor its use |
| EepromLog.FreshPageSpec | eeprom.c:557-563 | marking a blank page starts an empty log |
| EepromLog.TransferAppend | eeprom.c:578-596 | a record on the receiving page keeps the transfer invariant; the goal map changes only by the first one |
| EepromLog.TransferTornAppend | eeprom.c:578-596 | the same for a record torn by a power loss |
| EepromLog.ResumedIsMerged | eeprom.c:112-153 | appending the newest values of all table variables, apart from the one whose record came first, to the receiving page of a transfer gives exactly the map the transfer was heading for |
| EepromLog.OutcomeIsRecovered | eeprom.c:112-153 | in every state that writes and cut recoveries of a consistent store can leave, the map that a completed recovery will give is the recovered map |
| EepromLog.MarkSpec | eeprom.h:60-62 | the valid mark can be programmed over any header |
| Eeprom.TransferStep | eeprom.c:464-512 | every outcome of the append routine (complete, torn, nothing, page full) during a transfer, with its effect on the recovered map |
| Eeprom.TransferStart | eeprom.c:557-563 | marking the new page starts a transfer of the table variables; the rest of the map is no longer recovered |
| Eeprom.PendingStep | eeprom.c:464-512 | every outcome of the append routine while a transfer is pending, whatever records the receiving page holds: only that page changes, by at most one slot, and its first record stays |
| Eeprom.PendingWrite | eeprom.c:464-512 | what any write does to the outcome of a pending transfer, whatever was written to it before: a complete record updates one entry, unless the recovery will copy an older value over it, and a torn one does nothing |
| Eeprom.CopyStep | eeprom.c:115-139 | copying the next variable extends the part of the table that has been copied; a failed copy leaves the transfer pending, and page full means fewer free slots than variables |
| Eeprom.CopyKeeps | eeprom.c:115-139 | copying a variable, completely or not, has no effect on the outcome |
| Eeprom.StuckCopy | eeprom.c:115-139 | with a full receiving page, the first variable that has to be copied reports page full and nothing has changed |
| Eeprom.SkipStep | eeprom.c:115-124 | the variable whose record came first may be skipped |
| Eeprom.ProgressDone | eeprom.c:115-139 | after the last variable the receiving page holds the overlay, and for a transfer that is its goal |
| Eeprom.TransferFinish | eeprom.c:598-611 | erase-then-mark keeps the map in the state in between and at the end |
| Eeprom.ResumeFinish | eeprom.c:140-153 | mark-then-erase passes through two valid pages, which stand for the empty map, and ends with the contents of the receiving page |
| Eeprom.ForeignStep | eeprom.c:207-229 | with an unknown header on page 1 the resumed copy only repeats records of page 0 on page 0 |
| Eeprom.FormatCutSpec | eeprom.c:354-380 | the map after a format that was cut short: empty, unless page 1 was marked and page 0 has been erased (then what page 1 holds) or marked again next to a receiving page 1 (then its first record) |
| Eeprom.CutFormat | eeprom.c:354-380 | a store with two valid pages, which stands for the empty map, and the store after a format was cut, in which an old value is back |
| Eeprom.WriteLost | eeprom.c:112-153 | a record that came while a transfer was pending survives its completion if and only if the table does not list its address, or the valid page has no other value for it, or the receiving page was empty or starts with that address; whatever other records came before |
| Eeprom.CutTransfer | eeprom.c:330-346 | a store in which such a write completes and is lost; the store after it is pending still, and takes further writes |
| Eeprom.CutsLeadToStuck | eeprom.c:112-139 | from any pending transfer with a first record and another variable to copy: recoveries that are cut after copying that variable lead to a stuck store |
| Eeprom.StuckRun | eeprom.c:56-346 | such a run, from a transfer that was cut after its first record |
| Eeprom.MarkValid | eeprom.c:92-107 | marking a fully received page gives a store between operations with the same map |
| Eeprom.RecoveryStep | eeprom.c:56-259 | one recovery, complete or cut, from any state that recoveries can be in: the outcome stays, except with two valid pages, and a full page needs a 25th recovery |
| Eeprom.RemarkSplit | eeprom.c:557-563 | with a transfer pending, or two valid pages, marking the target page again changes nothing |
| Eeprom.Store.EraseSectorIfNotEmpty | eeprom.c:618-628 | the page is blank afterwards, or the erase failed and nothing changed; a blank page needs no erase |
| Eeprom.Store.NextFails | eeprom.c:618-628 | the outcome of the next flash operation, from the list of faults; each failure is used up once |
| Eeprom.Store.FindValidPage | eeprom.c:392-453 | the page for reading and for writing in every header combination, by the values of the two header words; a receiving page is preferred for writing |
| Eeprom.Store.ReadVariable | eeprom.c:271-318 | returns the newest value of the log, reports not-found exactly when the log has no record, leaves the output alone otherwise |
| Eeprom.Store.VerifyPageFullWriteVariable | eeprom.c:464-512 | appends one record to the selected page, tears it, does nothing, or reports a full page, and reports a flash error exactly for one failed flash operation; the other page is untouched |
| Eeprom.Store.TransferVariable | eeprom.c:577-594 | appends the newest value of the variable on the valid page as the append routine does, or does nothing when there is none |
| Eeprom.Store.CopyAllBut | eeprom.c:573-596 | the loop copies every table variable except the written one, within NB_OF_VAR slots, and never reports a full page |
| Eeprom.Store.SwitchPages | eeprom.c:598-611 | the recovered map is the same at every point of erase and mark |
| Eeprom.Store.FillNewPage | eeprom.c:565-611 | with room, a complete transfer; on a page that is already full, PAGE_FULL and no change |
| Eeprom.Store.PageTransfer | eeprom.c:525-611 | a complete transfer keeps the table variables and adds the write; an interrupted one leaves a recoverable state |
| Eeprom.Store.WriteVariable | eeprom.c:330-346 | without a failing flash operation a write between operations completes, page transfer included; a completed write changes the map in one entry (and drops untabled addresses when it transfers); interrupted at any flash operation, the recoverable map is the old one or the new one on the table; with a transfer pending it appends to the receiving page with the exact effect on the outcome, or reports a full page and changes nothing; with two valid pages it appends to the target page |
| Eeprom.Store.WriteThenRead | eeprom.c:330-346 | a completed write is read back if and only if the store was between operations (one valid page, the other blank) or held that value already |
| Eeprom.Store.WriteDuringTransfer | eeprom.c:56-346 | a write that completes while a transfer is pending, with any records already on the receiving page, is read back after recoveries that may be cut anywhere if and only if it was not overwritten by them, with the condition on the state before the write; otherwise the older value is read |
| Eeprom.Store.ResumeCopy | eeprom.c:115-139 | the copying loop of recovery, including its skip index, on any receiving page: complete, all table variables have been copied; cut short, the transfer is still pending with the same outcome and at most NB_OF_VAR more slots; page full only with fewer than NB_OF_VAR free slots, and always once the store is stuck |
| Eeprom.Store.ResumeTransfer | eeprom.c:112-153 | a completed resumed transfer gives the overlay of both pages, which for a transfer is the recovered map; a cut one leaves a pending transfer with the same outcome, or two valid pages; page full leaves a stuck store, and a stuck store always reports it |
| Eeprom.Store.FinishPage | eeprom.c:69-107 | one marked page next to an erased header: the other page is erased and a received page marked valid; the map is the same at every point |
| Eeprom.CountCopy | eeprom.c:115-139 | each copy of the recovery takes one slot of the receiving page, and it can only report page full when there is no room for all variables that have to be copied |
| Eeprom.Store.Format | eeprom.c:354-380 | after formatting the store is empty and usable: page 0 is blank but for the valid mark, page 1 is blank; cut short, page 1 is untouched and page 0 is untouched, blank, or blank but for its mark |
| Eeprom.Store.Init | eeprom.c:56-259 | every header combination, including unknown headers: completed recovery gives the outcome and leaves a store between operations; without failing flash operations it completes if and only if the receiving page has a slot for each variable that has to be copied, and otherwise reports a full page; a failed one keeps the value if and only if it is outside the window, and from any pending transfer leaves one with the same outcome or two valid pages; a format cut short and an unknown header next to a valid page 0 have the outcomes described above |
| Eeprom.Store.WriteAll | eeprom.c:330-346 | without faults any run of writes, over any number of page transfers, completes and is a map on the table variables |
| Eeprom.Store.Recover | eeprom.c:56-259 | any number of recoveries, each cut anywhere, from any consistent store or pending transfer: the outcome is the same, and that is the value, unless one was cut in the window, where it is empty; only as many of them fail as flash operations fail; after an interrupted write the receiving page cannot fill up before the 25th, and if it does the store is stuck |
| Eeprom.Store.RetryStuck | eeprom.c:56-346 | on a stuck store every recovery reports page full, no write completes, and nothing ever changes |
| Eeprom.Store.WriteAndRecover | eeprom.c:56-346 | power lost anywhere in a write and in any number of recoveries: every table variable keeps its value, the written one has the old or the new one, except in the window, and that is what a read returns; with no more failures than recoveries, and at most 24, it ends completed or in the window |
| Eeprom.Store.WriteRun | eeprom.c:56-346 | main result: any run of writes, each cut anywhere and followed by recoveries cut anywhere: outside the window every table variable holds its last completed write or an interrupted one after it; with no more failures than recoveries, and at most 24, the run completes outside the window |
| Fft.ReverseInvolution | digital_filter.c:37-55 | m-bit reversal is its own inverse, so swapping pairs suffices |
| Fft.ReverseIncrementSpec | digital_filter.c:49-54 | the subtract-and-halve loop steps from the reversal of i to the reversal of i + 1 |
| Fft.ShuffleIsReverse | digital_filter.c:37-55 | even/odd splitting m times is the bit-reversed order |
| Fft.HalfSpec | digital_filter.c:80-84 | the half-angle update squares back to the previous twiddle and stays on the half circle of its sign |
| Fft.TwiddleSpec | digital_filter.c:57-85 | at stage l the twiddle's power 2^l is -1 in both directions |
| Fft.TwiddleAngle | digital_filter.c:80-84 | the half-angle chain walks down the angles pi / 2^l with the sign of dir |
| Fft.RootAngle | digital_filter.c:114 | the root that filter_fft reaches by square roots is the one filter_dft takes from cos and sin |
| Fft.StagesTransform | digital_filter.c:57-85 | the butterfly stages on bit-reversed samples are the transform, for every size |
| Fft.DirectIsEval | digital_filter.c:111-121 | the sum filter_dft accumulates is the polynomial evaluated at a power of its root |
| Fft.FftIsDft | digital_filter.c:30-135 | main result: both algorithms compute the same sum at every output, for every m, input and dir |
| Dft.SplitEval | digital_filter.c:67-76 | a transform splits into those of the even and odd samples |
| Dft.ButterflyTransforms | digital_filter.c:67-76 | a butterfly layer combines two half-size transforms into one |
| DigitalFilter.SwapSpec | digital_filter.c:41-48 | each pair is swapped exactly once, when its lower index comes up |
| DigitalFilter.NextReversed | digital_filter.c:49-54 | the inner loop ends with k above 0 and j the next reversed index |
| DigitalFilter.BitReverse | digital_filter.c:37-55 | the in-place loop puts the samples in bit-reversed order |
| DigitalFilter.ButterflyAt | digital_filter.c:68-75 | one in-place butterfly on real and imaginary parts is complex add and subtract |
| DigitalFilter.ButterflyStage | digital_filter.c:66-79 | the two inner loops bring every entry to its value after the stage, each exactly once |
| DigitalFilter.StageSpec | digital_filter.c:61-85 | one stage turns transformed blocks of 2^l entries into transformed blocks of 2^(l+1) |
| DigitalFilter.FftStages | digital_filter.c:30-85 | the loops before the scaling leave the plain sums |
| DigitalFilter.ScaleAll | digital_filter.c:87-93 | a zero dir changes nothing; otherwise n times each entry is what it was |
| DigitalFilter.FilterFft | digital_filter.c:30-94 | main result: in place, output i is the sum filter_dft adds up for i, as it is for a zero dir; for any other, n times output i is that sum |
| DigitalFilter.DftPoint | digital_filter.c:112-120 | the inner loop accumulates the direct sum of one output |
| DigitalFilter.FilterDft | digital_filter.c:97-135 | every output is the direct sum for a zero dir; for any other, n times the output is that sum |
| DftLaws.ImpulseSum | digital_filter.c:111-121 | one sample c at t becomes, at output i of n, c times the point of the unit circle at the angle t * 2 * pi * i / n for a zero dir, and at minus that angle otherwise |
| DftLaws.SumAdds | digital_filter.c:111-121 | the sum of two signals becomes the sum of what they become, so with single samples every output is fixed |
| DftLaws.SumAtZero | digital_filter.c:111-121 | output 0 adds up the samples as they are |
| DftLaws.FftImpulse | digital_filter.c:30-94 | filter_fft on one sample: the law above for each output, n-fold for nonzero dir |
| DftLaws.FftAtZero | digital_filter.c:30-94 | output 0 of filter_fft is the sum of the samples for a zero dir and their mean otherwise |
| DftLaws.DftAtZero | digital_filter.c:97-135 | the same for filter_dft |
| FftInverse.GeoRoot | digital_filter.c:111-121 | the powers of a root of unity other than 1 add up to 0 |
| FftInverse.PowNotOne | digital_filter.c:57-85 | the root of a transform of 2^m points has order exactly 2^m: no smaller positive power is 1 |
| FftInverse.RootInverse | digital_filter.c:80-84 | the roots of the two directions are inverse to each other |
| FftInverse.TransformTwice | digital_filter.c:57-85 | a transform followed by one with the inverse root gives every sample back, n times |
| FftInverse.FftRoundTrip | digital_filter.c:30-94 | main result: filter_fft in one direction and then in the other leaves both arrays as they were, for every size, input and order of the directions |
| Crc.TableCorrect | crc.c:27-55 | all 256 table entries are eight division steps of their index |
| Crc.ShiftInjective | crc.c:57-64 | a zero message bit never loses a remainder |
| Crc.ShiftLinear | crc.c:57-64 | the division step is linear |
| Crc.TableStepCorrect | crc.c:61 | the body of the loop divides by exactly eight more message bits |
| Crc.CrcAppend | crc.c:60-62 | one more byte of message is one more table step |
| Crc.Crc16 | crc.c:57-64 | the loop computes the bit-by-bit remainder of the message |
| Crc.CheckValue | crc.c:57-64 | the published check value of this CRC: 0x31C3 for the digits 123456789 |
| Crc.CrcOfCodeword | packet.c:69-71 | a message followed by its CRC, high byte first, has CRC 0 |
| Crc.JoinSplit | packet.c:151-153 | comparing with the two received bytes is comparing the CRC |
| Crc.FeedLinear | crc.c:57-64 | the remainders of two messages differ as their difference pattern says |
| Crc.BurstRemainder | crc.c:57-64 | a pattern confined to 16 bits, with any number of zeros around it, has a nonzero remainder |
| Crc.BurstDetected | crc.c:57-64 | main result: different messages of equal length that differ in at most 16 consecutive bits have different CRCs |
| Crc.OddErrorsDetected | crc.c:57-64 | any odd number of wrong bits is detected |
| CrcOrder.Order | crc.c:27-55 | x^n is 1 modulo the generator if and only if n is a multiple of 32767 |
| CrcOrder.TwoBitRemainder | crc.c:57-64 | a pattern with two bits leaves no remainder if and only if x to their distance is 1 |
| CrcOrder.TwoBitErrors | crc.c:57-64 | main result: messages of equal length that differ in exactly two bits have the same CRC if and only if the distance of the bits is a multiple of 32767 |
| CrcOrder.TwoBitsDetected | packet.c:50-77 | so two wrong bits are detected in every message of up to 4095 bytes, four times the longest payload |
| FrameErrors.CodewordBurst | packet.c:69-71 | different messages of equal length, each followed by its CRC, never differ in at most 16 consecutive bits only, CRC bytes included |
| FrameErrors.CodewordTwoBits | packet.c:69-71 | nor in exactly two bits, up to 4093 message bytes |
| FrameErrors.CodewordOdd | packet.c:69-71 | nor in an odd number of bits |
| CrcDivision.CrcIsRemainder | crc.c:57-64 | main result: the CRC is the remainder of the message times x^16 in schoolbook long division by x^16+x^12+x^5+1 |
| CrcDivision.SubtractDivisor | crc.c:57-64 | subtracting the aligned divisor keeps the value modulo the divisor |
| Framing.AcceptedIff | packet.c:92-168 | the receiver accepts exactly the well-formed frames of both length forms and takes out exactly their payload |
| Framing.AcceptedBytes | packet.c:92-168 | the accepted frames byte by byte, with their literal start and end bytes, one or two length bytes and the CRC with its high byte first, for 1 to 1024 bytes of payload |
| Framing.EncodeLayout | packet.c:50-77 | the bytes that are sent: one length byte up to 256, two above, nothing above 1024 |
| Framing.RunReachable | packet.c:82-168 | reachable receiver states: idle or within a frame, with a bounded timeout |
| Framing.OutputSound | packet.c:82-168 | over any run of bytes and ticks, the payloads handed over are, in order, those of well-formed frames on disjoint consecutive stretches of the bytes received |
| Framing.ThreeTicksReset | packet.c:82-90 | three ticks without a byte reset every reachable state |
| Framing.TwoTicksKept | packet.c:82-90 | a frame in progress survives two ticks after a byte, and not the third |
| Framing.RunFrame | packet.c:92-168 | bytes that end where their header announces, resumed at any point, deliver their payload once if they are an accepted frame and nothing otherwise, and leave the receiver idle |
| Framing.EncodeAccepted | packet.c:50-77 | encoded payloads of length 1..1024 other than 256 are accepted frames with that payload |
| Framing.StreamRoundTrip | packet.c:50-168 | any list of such payloads, encoded, concatenated and paced with at most two ticks inside a frame, comes out as exactly that list |
| Framing.CarriedSize | packet.c:92-168 | with their framing they take no more bytes than were received |
| Framing.RoundTripIff | packet.c:57 | for lengths 1..1024 other than 256 exactly the payload comes out; for every other length, however the frame is paced within the timeout, it is not among the output: the one-byte form is used up to 256, where 256 wraps to 0 |
| Framing.Resynchronised | packet.c:82-168 | from any reachable receiver, after any noise and three ticks, a stream of frames comes out as exactly its list of payloads, behind whatever the noise delivered |
| FrameErrors.AcceptedBurst | packet.c:50-168 | after a burst of at most 16 bits that leaves the start byte alone, what arrived is not accepted as one frame of the length sent |
| FrameErrors.AcceptedTwoBits | packet.c:50-168 | nor after exactly two wrong bits |
| FrameErrors.AcceptedOdd | packet.c:50-168 | nor after an odd number of wrong bits |
| FrameErrors.BodyRun | packet.c:92-168 | whatever the damage behind an intact header, the receiver decides about the frame as a whole, hands over at most its payload, and is idle afterwards |
| FrameErrors.BodyErrors | packet.c:50-168 | main result: behind an intact header, after a burst of at most 16 bits, exactly two wrong bits or an odd number of them in payload, CRC or end byte, an idle receiver hands nothing over and is idle again |
| FrameErrors.DamagedStream | packet.c:50-168 | main result: a stream in which any frames have such errors comes out as exactly the payloads of the undamaged frames |
| HeaderErrors.Shortened | packet.c:112-162 | any payload that consists of some bytes, their CRC and end byte, and more: if the last length byte is damaged to the length of those bytes, the receiver hands them over |
| HeaderErrors.TwoBitsMisread | packet.c:112-162 | a payload of each form, and two wrong bits in the last length byte that make the receiver hand over another one |
| HeaderErrors.OneBitMisread | packet.c:112-162 | the same for one wrong bit |
| HeaderErrors.StartByteMisread | packet.c:92-108 | the same for one wrong bit in the start byte of a frame with a two-byte length |
| HeaderErrors.LastBitMisread | packet.c:112-162 | the same for a burst that hits only the last bit of the length and the first 15 bits of the payload |
| HeaderErrors.ClassSafeIff | packet.c:50-168 | main result: for bursts of at most 16 bits, two wrong bits and odd numbers of them, errors in the bytes from number n on never make an idle receiver hand over a wrong payload, for all payloads of a form, if and only if the header has at most n bytes |
| HeaderErrors.WindowSafeIff | packet.c:50-168 | main result: the 16 bits from bit lo on may be damaged in any way, for all payloads of a form, if and only if they do not touch the header |
| StartByteErrors.StartByteBurst | packet.c:54-60 | for every payload of even length from 2 to 254, one burst of 16 bits turns the frame of that payload with a zero byte in front into an accepted frame of the payload itself, of the same length |
| StartByteErrors.TakenWholeIff | packet.c:50-168 | a burst of at most 16 bits can turn the frame of a payload into another accepted frame of the same length if and only if the payload starts with a zero byte and has an odd length from 3 to 255 |
| Packet.Handler.ProcessByte | packet.c:92-168 | one byte takes the state machine exactly one step of the receiver on values, and calls process_func exactly when a frame is accepted; buffer indices stay in range |
| Packet.TrackLength | packet.c:112-127 | the two length bytes give the declared length, and only 1..1024 is accepted |
| Packet.TrackPayload | packet.c:129-135 | a payload byte goes to its place in the buffer, within its bounds |
| Packet.TrackEnd | packet.c:149-162 | when the last byte arrives the frame is complete, its payload is in the buffer, and it is well-formed exactly for the end byte and a matching CRC |
| Packet.Handler.EndOfFrame | packet.c:149-162 | the last byte hands over the payload exactly for the end byte and a matching CRC, and always returns to idle |
| Packet.Handler.FillFrame | packet.c:55-72 | the transmit buffer holds the encoded frame |
| Packet.Handler.SendPacket | packet.c:50-77 | hands the encoded frame to the driver; nothing for an oversized payload or a missing driver |
| Packet.Handler.TimerTick | packet.c:84-88 | one tick of the receiver on values |
| Packet.TimerFunc | packet.c:82-90 | every handler gets its tick, and what was handed over and sent stays |
| Packet.ReceiveAll | packet.c:82-168 | a whole run of bytes and ticks through one handler gives the run on values, so the stream results hold of it |
| Tachometer.RemainderNearest | mcpwm.c:2304-2314 | with C's truncating remainder and the two corrections, the difference is congruent to the step change and in -2..3 |
| Tachometer.NearestUnique | mcpwm.c:2304-2314 | the window picks exactly one difference |
| Tachometer.UnwrapExact | mcpwm.c:2304-2314 | the difference is the true move if and only if the move is in -2..3 |
| Tachometer.TotalMonotone | mcpwm.c:2322-2330 | a history without backward differences only adds to the absolute counter, which bounds the signed one |
| Mcpwm.Motor.UpdateRpmTacho | mcpwm.c:2304-2331 | both counters move by the nearest difference, the signed one by direction, and the history records it |
| Mcpwm.Motor.WrapStep | mcpwm.c:2351-2356 | any step number comes back into 1..6, in the same residue class |
| Mcpwm.Motor.AdvanceStep | mcpwm.c:2349-2358 | a commutation advances the step cyclically and a synchronous counter by exactly the steps taken |
| Mcpwm.Motor.GetTachometer | mcpwm.c:801-809 | reads, and with reset clears, the signed counter, which then counts the moves from there on |
| Mcpwm.Motor.GetTachometerAbs | mcpwm.c:821-829 | the same for the absolute counter |
| Mcpwm.Motor.Commutate | mcpwm.c:2343-2380 | without sensors the step advances cyclically and a synchronous counter moves by exactly the steps taken; otherwise neither changes |
| Mcpwm.Motor.FollowHall | mcpwm.c:1729-1742 | with hall sensors the step follows the sensor and the counter moves by the nearest difference |
| Mcpwm.Motor.FollowBackEmf | mcpwm.c:1612-1727 | without sensors an interrupt counts exactly the commutations it makes |
| Mcpwm.ReversePhase | mcpwm.c:496-514 | the half of the hall table for the reverse direction gives the phase of the mirrored position |
| Mcpwm.FollowRotation | mcpwm.c:1729-1742 | along any rotation, with the hall table of the direction current at each interrupt: as long as the position in that direction's frame moves by -2..3 steps, the absolute counter follows it exactly; the direction is fixed while the motor does not run |
| Utils.StepTowardsSpec | utils.c:33-47 | a step towards a goal is the whole step, or ends at the goal when that is nearer |
| Utils.TruncateNearest | utils.c:86-98 | truncation gives the nearest number within the bounds |
| Utils.AlongIsProduct | utils.h:52 | the sign of one number times another |
| Mcpwm.ModeLimitExact | mcpwm.c:620-649 | all entries respect their mode's limit if and only if the plain limit is not above the current-control one (or is negative) |
| Mcpwm.BrakeAboveModeLimit | mcpwm.c:620-649 | otherwise: a new motor and two calls that brake above the limit of the brake mode |
| Mcpwm.Motor.constructor | mcpwm.c:160-201 | a new motor is valid, and its duty cycles are in range |
| Mcpwm.Motor.SetDutyCycleHw | mcpwm.c:1028-1035 | only a duty cycle in the allowed range reaches the timer |
| Mcpwm.Motor.Start | mcpwm.c:989-1017 | exactly which states start; without sensors a braked motor starts only when slow and with little current |
| Mcpwm.Motor.SetDutyCycleLl | mcpwm.c:948-1018 | from the minimum up the timer follows value and direction; below it a running motor brakes only under its mode's speed limit and else runs at the minimum |
| Mcpwm.Motor.SetDutyCycleHl | mcpwm.c:897-934 | the set duty cycle is clamped; detection is only stopped; from the minimum up a released motor runs, a braked one exactly when it may start, and a spinning motor keeps its duty cycle; no duty cycle moves outwards |
| Mcpwm.Motor.SetDuty | mcpwm.c:533-536 | keeps the duty cycles in range for every argument; from the minimum up a stopped motor runs exactly when it may start |
| Mcpwm.Motor.SetDutyNoramp | mcpwm.c:548-558 | keeps the duty cycles in range if and only if the motor was not running or the argument is within the configured maximum |
| Mcpwm.Motor.SetConfiguration | mcpwm.c:478-488 | a new configuration stops the motor and keeps all invariants; the duty cycles are in range afterwards if and only if they were within the new maximum before |
| Mcpwm.Motor.SetPidPos | mcpwm.c:579-586 | never brakes; a running motor is left alone, a stopped one runs at or above the minimum duty cycle exactly when it may start |
| Mcpwm.Motor.SetCurrent | mcpwm.c:596-611 | never brakes; small currents release the motor, a stopped motor runs in the direction of the current exactly when it may start |
| Mcpwm.Motor.SetBrakeCurrent | mcpwm.c:620-649 | from off or detecting, brakes exactly within the plain limit; a running motor is left running |
| Mcpwm.Motor.RunPidControlSpeed | mcpwm.c:1101-1115 | at least the minimum duty cycle, never against the requested speed |
| Mcpwm.Motor.FollowAmplitude | mcpwm.c:1294-1299 | the duty cycle matches the amplitude in the tracked direction, within the configured maximum |
| Mcpwm.Motor.TrackBackEmf | mcpwm.c:1228-1302 | with the output off the duty cycle is the back-EMF amplitude over the supply, in range and in the tracked direction, and when the tracked direction flips |
| Mcpwm.Motor.InjectedInterrupt | mcpwm.c:1510-1524 | detection cycles the step through 1..6 |
| Mcpwm.Motor.CurrentStep | mcpwm.c:1783-1796 | the step of the current controller is the one on values, and each one shortens the slow ramp by one |
| Mcpwm.Motor.RegulateCurrent | mcpwm.c:1781-1822 | current control moves with the sign of the error, or towards the start-up boost, by a bounded step, and never rests below the minimum against the set current |
| Mcpwm.Motor.AimForCurrent | mcpwm.c:1781-1805 | the part before range and minimum: the boost or the step of the controller |
| Mcpwm.Motor.RegulateBrake | mcpwm.c:1823-1853 | current braking lowers the duty cycle while too little current is generated and raises it when too much, and reaches zero only below its speed limit |
| Mcpwm.Motor.AimForBrake | mcpwm.c:1823-1843 | the part before the minimum: the step of the controller along the duty cycle, within the maximum |
| Mcpwm.Motor.Regulate | mcpwm.c:1779-1856 | in every control mode the next duty cycle is in range and a bounded step away unless at the minimum; braking to zero only below its speed limit |
| Mcpwm.Motor.ApplyLimits | mcpwm.c:1858-1895 | the limits in priority order: the acting current limit moves the duty cycle towards zero or outwards in proportion to the excess, then the speed limits, and only without any the regulator's value is taken |
| Mcpwm.Motor.Restart | mcpwm.c:1897-1912 | a stopped motor restarts in the set direction at the minimum, never against a fast rotation; at moderate speed nothing else changes |
| Mcpwm.Motor.RampDuty | mcpwm.c:1767-1912 | one control step is the step on values; it is rate-limited, backs off under overcurrent and never turns against a fast rotation |
| Mcpwm.Motor.ControlStep | mcpwm.c:1767-1912 | regulator, limits and restart together are exactly one step on values |
| Mcpwm.Motor.DutyControl | mcpwm.c:1767-1915 | afterwards the timer runs the duty cycle in its direction, or the motor is braked exactly under the limit of its mode |
| Mcpwm.Motor.AdcInterrupt | mcpwm.c:1546-1921 | a whole interrupt keeps all invariants; commutation counts as above; only a running motor's duty cycle changes, and it takes exactly one control step if the motor has commutated: always with a DC motor or hall sensors, and else exactly in the stated cases |
| DutyLaws.RampLaw | mcpwm.c:1854-1856 | duty cycle and speed control without a limit: the whole ramp step towards dutycycle_set, a tenth of it while recovering, or all the way when that is nearer; then the restart rule |
| DutyLaws.OvercurrentLaw | mcpwm.c:1861-1864 | too much motor current, in every mode: towards zero by the ramp step times excess times gain |
| DutyLaws.RegenerationLaw | mcpwm.c:1865-1869 | too much generated current: outwards in the direction of rotation, likewise |
| DutyLaws.InputCurrentLaw | mcpwm.c:1869-1876 | the input current limits, when the motor current is within its own |
| DutyLaws.SpeedLimitLaw | mcpwm.c:1877-1895 | the speed limits: towards zero by their own step, and ramping slows down for 500 interrupts |
| DutyLaws.CurrentStepLaw | mcpwm.c:1783-1796 | the step of the current controller: error times gain, scaled by the supply, limited, per interrupt, and a tenth of it while recovering |
| DutyLaws.CurrentLaw | mcpwm.c:1781-1822 | current control without a limit, above the boost: the duty cycle moves by that step, within the maximum, with the matching sign of dutycycle_set |
| DutyLaws.BoostLaw | mcpwm.c:1798-1803 | below the boost: towards it in the direction of the set current, by the ramp step |
| DutyLaws.BrakeLaw | mcpwm.c:1823-1853 | current braking without a limit: by that step along the duty cycle; below the minimum to zero when slow, and to the minimum otherwise |
| DutyLaws.CalmStep | mcpwm.c:1767-1912 | in duty cycle control, without a limit, each step takes the whole ramp step off the distance to dutycycle_set, or all of it |
| Mcpwm.ControlInterrupt | mcpwm.c:1546-1921 | an interrupt of a running motor with a DC motor or hall sensors: one control step on values, then the timer runs the duty cycle in its direction, or the motor is braked exactly under the limit of its mode |
| Mcpwm.OvercurrentInterrupt | mcpwm.c:1860-1912 | the same under overcurrent, with the step back written out |
| Mcpwm.CalmInterrupt | mcpwm.c:1767-1915 | the same in duty cycle control without a limit |
| Mcpwm.RampUp | mcpwm.c:1767-1915 | main result: over any run of such interrupts the distance from dutycycle_now to dutycycle_set shrinks by the sum of the ramp steps until it is zero, and then stays zero; the timer runs the duty cycle |
| Mcpwm.RampSumConstant | mcpwm.c:1770 | at a constant switching frequency, after n interrupts that is n times the step |
| Mcpwm.StepInRange | mcpwm.c:478-558 | after one event the duty cycles are in range if and only if the event was harmless: a configuration that allows both, or no command out of range that skips the ramp of a running motor |
| Mcpwm.InRangeIff | mcpwm.c:478-1943 | main result: over a run the duty cycles stay within the configured maximum if and only if they start there and every event is harmless when it comes |
| Mcpwm.ReachBounded | mcpwm.c:478-1943 | no duty cycle exceeds the largest of the initial bound, the configured maxima and the arguments of the commands that skip the ramp; in particular, without these, the initial maximum |
| Mcpwm.RisingInRange | mcpwm.c:478-1943 | configurations that never lower the maximum, and such commands in range, keep the duty cycles in range |
| Mcpwm.SmallerMaximum | mcpwm.c:478-488 | otherwise: a new motor, one command and a configuration with a smaller maximum leave the set duty cycle above it |
| Mcpwm.UnboundedDuty | mcpwm.c:548-558 | and a running motor takes any duty cycle from the command that skips the ramp |
| Mcpwm.HandleCommand | mcpwm.c:533-649 | each ramped command keeps all invariants and the two histories, and moves no duty cycle outwards |
| Mcpwm.HandleBackground | mcpwm.c:1101-1943 | so does each thread round and interrupt, and keeps the configuration |
| Mcpwm.Handle | mcpwm.c:478-1943 | each command, configuration change, counter reset, thread round and interrupt keeps all invariants and the two histories, and does to the duty cycles what the results above assume |
| Mcpwm.RunCounts | mcpwm.c:2304-2331 | what a longer history adds to the two counters |
| Mcpwm.Run | mcpwm.c:478-1943 | main result: over every run the duty cycles stay within the configured maximum exactly as long as every event is harmless when it comes, and never exceed what was asked for; every brake entry respects the limit of its mode or comes from the brake command within the plain one; between resets the counters are sums of congruent differences, and without sensors, phase detection and changes of the sensor mode they never count backwards |
| Reassembly.TilesCover | comm_can.c:351-384 | fragments in order without gap or overlap cover every byte |
| Reassembly.ApplyAllAt | comm_can.c:192-203 | a byte once right stays right, and a covered byte becomes right, in any order |
| Reassembly.Reassembled | comm_can.c:192-203 | fragments received in order or not, any number of times, rebuild the payload over any earlier buffer |
| Reassembly.PiecesTile | comm_can.c:351-384 | the one-byte-offset and two-byte-offset phases tile the payload, also where they meet, for any piece sizes |
| Reassembly.PieceSize | comm_can.c:351-384 | and no piece exceeds the size of its phase |
| Reassembly.FillPieceAt | comm_can.c:351-369 | which pieces there are in the first phase, their offsets and their bytes |
| Reassembly.LongPieceAt | comm_can.c:371-384 | the same for the second phase |
| Reassembly.AnyOrder | comm_can.c:192-239 | any arrival of the fragments of the front of a payload, then the final message with length, CRC and the rest, hands over exactly that payload, once |
| Can.SendBuffer | comm_can.c:339-397 | the frames transmitted are exactly the fragments, in order, and the final frame; all go to the given controller, and the last one carries the sender's own identifier, the flag, length and CRC, high bytes first |
| Can.FillFrameAt | comm_can.c:351-369 | frame k of the first 37 carries its one-byte offset 7 * k and the seven bytes from there |
| Can.LongFrameAt | comm_can.c:371-384 | the frames after them carry the two-byte offset 259 + 6 * k and six bytes |
| Can.FrameCount | comm_can.c:339-397 | how many frames a payload takes |
| Can.ProcessLayout | comm_can.c:386-395 | the six bytes of the final frame |
| Can.SendFills | comm_can.c:351-369 | the first loop and where it stops |
| Can.SendLongs | comm_can.c:371-384 | the second loop |
| Can.Receiver.ProcessRxFrame | comm_can.c:192-244 | one frame changes the buffer and hands over exactly as the receiver on values: nothing for another controller's frames; from the final frame the first 1024 bytes or less that it announces, only if their CRC is the one it carries; its first byte is kept as the sender |
| Can.CanReassembly | comm_can.c:192-397 | main result: for 7..1024 bytes, any earlier buffer, any order and duplication of the fragments, then the final frame: exactly the payload is handed over, once |
| Can.CanShort | comm_can.c:342-348 | up to six bytes travel in one frame and are handed over |
| Can.Receiver.ReceiveAll | comm_can.c:192-244 | a whole run of frames changes the buffer and hands over as the receiver on values, and ends with the sender of the final frame |
| Can.Transfer | comm_can.c:192-397 | main result: the frames that the sender's code transmits, through the receiver's code, with the fragments in any order and any number of times: exactly the payload is handed over, once, for every length up to 1024, and the receiver has stored the sender's identifier |
| Can.Exchange | comm_can.c:470-472 | main result: a payload and the answer to it, sent with the identifier that the receiver has stored: the answer reaches the sender and hands over exactly its bytes, for all lengths up to 1024 of both |
| Can.Overhear | comm_can.c:152-160 | another controller takes nothing from frames that are not meant for it |
| NrfDriver.PacketSize | nrf/nrf_driver.c:222-288 | no packet sent exceeds 25 bytes |
| NrfDriver.SendBuffer | nrf/nrf_driver.c:222-288 | the packets transmitted are exactly the fragments and the final packet with type, length, CRC and the last 20 bytes; up to 24 bytes are one packet |
| NrfDriver.FillPacketAt | nrf/nrf_driver.c:236-256 | packet k of the first twelve carries type 3, its one-byte offset 23 * k and the 23 bytes from there |
| NrfDriver.LongPacketAt | nrf/nrf_driver.c:258-273 | the packets after them carry type 4, the two-byte offset 276 + 22 * k and 22 bytes |
| NrfDriver.PacketCount | nrf/nrf_driver.c:222-288 | how many packets a payload takes |
| NrfDriver.SentLayout | nrf/nrf_driver.c:275-287 | the bytes of a short packet and of the final one |
| NrfDriver.SendFills | nrf/nrf_driver.c:236-256 | the first loop and where it stops |
| NrfDriver.SendLongs | nrf/nrf_driver.c:258-273 | the second loop |
| NrfDriver.Receiver.ProcessRxPacket | nrf/nrf_driver.c:145-191 | one packet changes the buffer and hands over exactly as the receiver on values: from the final packet at most 1024 bytes, only if their CRC is the one it carries |
| NrfDriver.NrfReassembly | nrf/nrf_driver.c:145-288 | main result: the order- and duplicate-independent round trip for 25..1024 bytes |
| NrfDriver.NrfShort | nrf/nrf_driver.c:225-231 | up to 24 bytes travel in one packet and are handed over |
| NrfDriver.Receiver.ReceiveAll | nrf/nrf_driver.c:145-191 | a whole run of packets changes the buffer and hands over as the receiver on values |
| NrfDriver.Transfer | nrf/nrf_driver.c:145-288 | main result: the same for the packets of the radio link |
| ServoSchedule.ExtendClears | servo.c:250-271 | taking one more servo adds one clear of its pin and changes nothing for other pins |
| ServoSchedule.ActualPosNearest | servo.h:128 | positions from 0 to 255 are taken as they are, and of the others the nearest of these is taken |
| ServoSchedule.ClearedExactlyOnce | servo.c:230-279 | for any number of servos, positions and ports, the schedule clears each servo pin once, at its position, and no other pin |
| ServoSchedule.PlanGrouped | servo.c:242-273 | entries of one interrupt share its position, and the pin counts add up to the number of servos |
| ServoSchedule.PlanMerged | servo.c:250-261 | neighbouring servos of one port at one position share an entry |
| ServoSchedule.PositionsIncrease | servo.c:263-266 | for sorted servos every later interrupt is at a larger position, so every later delay is positive |
| ServoSchedule.PlanOnTime | servo.c:166-201 | executing the entries clears each servo pin once, at the start offset plus its scaled position |
| ServoSchedule.Driver.TakeSamePosition | servo.c:250-261 | the inner loop: equal positions share a mask or add an entry, whatever follows the array; the last index read is the one it stops at, the number of servos at the end of the array |
| ServoSchedule.Driver.TakeOne | servo.c:251-260 | the body of the loop extends the plan by one servo |
| ServoSchedule.Driver.OpenGroup | servo.c:265-269 | the step to the next position |
| ServoSchedule.Driver.BuildSchedule | servo.c:230-279 | the arrays hold the plan of the sorted servos; every run reads the sorted copy at index SERVOS_NUM, one past its end, and the result does not depend on what is there |
| ServoSchedule.Driver.EndPulses | servo.c:185-189 | clears the pins of all entries of this interrupt, counts them, and takes exactly these pins down |
| ServoSchedule.Driver.StartPulse | servo.c:143-148 | exactly the servo pins go high |
| ServoSchedule.Driver.Irq | servo.c:166-201 | the start of all pulses, the end of those that are due, and the cool-down, with the counter top each loads |
| ServoSchedule.Driver.NextInterrupt | servo.c:166-201 | one interrupt keeps the cycle's invariant: what has been cleared so far, and when the next one is due |
| ServoSchedule.Driver.RunCycle | servo.c:166-279 | main result: a whole cycle sets every servo pin and clears it exactly once, exactly when the counter tops loaded since the start pulse sum to the start offset plus its position times the factor, with non-negative delays; at the end all servo pins are low and no other pin has changed |
| Svm.OnTimesValid | mcpwm_foc.c:1917-2032 | in every sector the two on-times are non-negative and fit into the period, for magnitude up to sqrt(3)/2 |
| Svm.TimingsCentred | mcpwm_foc.c:1913-2040 | all three outputs lie in 0..N and smallest plus largest is N or N - 1 |
| Svm.TimingsAccurate | mcpwm_foc.c:1913-2040 | the three line-to-line times are the projections of the vector to within two ticks, with truncating conversions |
| Svm.SaturateSpec | utils.c:322-339 | saturation brings any vector into the circle |
| Svm.ModulationInRange | mcpwm_foc.c:1862-1904 | svm is only called within its range, whatever the current controller asks for |
| Svm.RotateBack | mcpwm_foc.c:1879-1904 | rotating the vector handed to svm back into the rotor frame gives minus the saturated request |
| Svm.SaturateExact | utils.c:322-339 | from 1e-10 up, saturation leaves a vector inside the radius as it is; any other keeps its direction and gets exactly the radius |
| Svm.RadiusIs | mcpwm_foc.c:1862-1871 | the radius is sqrt(3)/2 of the duty cycle limit, which is clamped to the configured maximum |
| Svm.OutputAsAsked | mcpwm_foc.c:1862-2040 | main result: the line-to-line times that the current controller puts out are, to within two ticks, the projections of minus the requested vector, rotated into the stator frame and shortened to the radius if it is longer |
| DigitalFilter.AddSample | digital_filter.c:234-239 | the ring read oldest first drops its oldest sample and gains the new one |
| DigitalFilter.RunFirIteration | digital_filter.c:208-220 | the dot product of the coefficients with the ring read oldest first |
| DigitalFilter.FilterRun | digital_filter.c:208-239 | after any run of samples the filter output is the dot product with the last 2^bits of them |
| DigitalFilter.DotImpulse | digital_filter.c:208-220 | a single sample is weighted by the coefficient at its place |
| DigitalFilter.DotAdds | digital_filter.c:208-220 | added signals give added outputs |
| DigitalFilter.ImpulseResponse | digital_filter.c:208-239 | the impulse response, through ring and filter: a sample among zeros comes out weighted by the last coefficient at once, by the one before after one more sample, and so on, and by nothing after 2^bits samples |
| Bits.AndMask | digital_filter.c:211-217 | masking with 2^b - 1 wraps an incremented ring index |

## Left out

- Eeprom.Store.WriteVariable: not stated for a marked page next to leftover records behind an erased header, which needs an erase that stops half-way, or next to an unknown header.
- Eeprom.Store.Init: a torn half-word, a partial erase, flash wear and bit rot are outside the fault model.
- Eeprom.Store.ReadVariable: NO_VALID_PAGE is a separate result; the transfer loops, which run with a valid page only, treat it like the found case in the code.
- DigitalFilter.FilterFft: rounding of floats; the model is exact.
- DigitalFilter.RunFirIteration: bits is 1..31, where the shift by 32 - bits is defined in C.
- HeaderErrors.WindowSafeIff: what is handed over from the bytes of the damaged frame itself; after a damaged header the receiver may wait for more bytes, and what it makes of those is not followed (`Framing.Resynchronised` says when it recovers).
- FrameErrors.DamagedStream: bytes that are lost or added, and damaged headers within a stream.
- Can.Receiver.ProcessRxFrame: frames too short for their command, or fill frames reaching past the receive buffer, which the code does not exclude; commands without payload; several senders interleaving into the one receive buffer; the receive ring between interrupt and thread.
- NrfDriver.Receiver.ProcessRxPacket: the same for radio packets; the joystick, battery and alive packets and the radio restart.
- Packet.TimerFunc: a timer interrupt in the middle of processing a byte.
- ServoSchedule.Driver.RunCycle: the 16-bit width of the timer, more than 127 servos (where the signed char indices wrap), the interrupt's own run time, and servo commands (USE_COMMANDS is off); the cool-down's length is a parameter.
- Svm.TimingsAccurate: rounding of the products before truncation; the period is any natural number, and results stay in 0..N, so 32-bit unsigned arithmetic does not wrap.
- Svm.OutputAsAsked: the dead-time compensation, which goes into the voltages that the observer sees and not into the output.
- Svm.ModulationInRange: assumes the fast sine and cosine lie on the unit circle; their approximation error is not modelled.
- Mcpwm.Run: preemption inside a handler, hall readings of -1 in a fault, and rpm_dep timing.
- Mcpwm.Handle: the same; `mcpwm_init` and `mcpwm_deinit` in the middle of a run are not events.
- Mcpwm.Motor.FollowBackEmf: the integrator and the timeout arrive as two booleans, in any combination; how the sampled voltages make them is analog.
- Mcpwm.Motor.AdcInterrupt: the same two booleans are inputs of the interrupt.
- Mcpwm.Motor.RunPidControlSpeed: the PID terms are summed outside; their tuning is control theory.
- Mcpwm.RampUp: stated for a DC motor or hall sensors, where every interrupt of a running motor does the control step; without sensors `Mcpwm.Motor.AdcInterrupt` says which ones do.
- Mcpwm.Motor.SetDutyCycleHw: the conversion to timer ticks and the switching frequency that goes with it.
- Mcpwm.Motor.TrackBackEmf: the amplitude filter and the comparison of commutation times are parameters.
- The observer, the phase-locked loop, the position and speed controllers and the parameter detection of `mcpwm_foc.c`: plant behaviour decides their correctness.
- Register, DMA, ADC, USB, I2C and SPI code, the ChibiOS threads, the terminal, the LED drivers and the applications.
- `buffer.c` and the field lists of `commands.c`: long and easy round trips.
- The window functions and FIR design of `digital_filter.c`, and the float helpers of `utils.c` that no modelled code uses.
