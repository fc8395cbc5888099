# Verified models of the N32L43x board support package

A Dafny model of the algorithms and state machines of this RT-Thread board support package, with proofs
of what they promise and, where they do not keep a promise, of exactly when they do. `dafny verify dfyconfig.toml`
checks everything.

| files | subject |
|---|---|
| `CanFrame`, `CanNetwork`, `CanDriver`, `CanRuns`, `CanFilter` | the CAN message layouts, mailboxes and FIFOs as a step system, the driver on registers that refines it, whole runs with other nodes on the bus, the filter compiler |
| `FixedPoint`, `Reciprocal`, `Interpolation`, `Clarke`, `Pid`, `CircularBuffer` | the fixed-point inline functions of CMSIS-DSP |
| `PinIrq`, `PinIrqDriver` | the GPIO external-interrupt manager: sixteen lines on seven vectors |
| `ClockRegisters`, `ClockTree`, `ClockSwitch`, `ClockDriver` | the clock registers, what they mean, the two switching sequences and the code that makes them |
| `PmTick`, `Delay`, `I2c`, `I2cPolls`, `I2cDriver` | low-power tick conversion, the busy wait, the blocking I2C master |
| `MpuLoad`, `NvicPriority` | the bulk MPU load and the interrupt priority codec |
| `Arithmetic`, `BitWords`, `Histories` | shared lemmas on products, single-bit words and bags of logs |

Each driver is a class whose methods make the C code's register writes and are proved against a function or step
relation on values; the properties are then lemmas about that function. Hardware is explicit state: registers with
their write semantics, FIFOs, and an oracle for polled flags. Machine arithmetic is written out: 32-bit wraps as a
remainder, registers as 32-bit vectors. The CAN fields are those of the Bosch CAN Specification 2.0, Part B,
section 3.2.1.

## Where the code and its documentation disagree

The model follows the code; each point is a lemma.

- The Clarke transform's comment says saturation removes the risk of overflow. Its second product is truncated to 32
  bits before the saturating add, so full-scale Ib wraps (`Clarke.FullScaleWraps`); the sum saturates as promised exactly in
  a range of Ib (`Clarke.ForwardSaturatesIff`).
- The reciprocal is documented for both signs; with a table within 2^-6 the stored value is accurate exactly for
  positive inputs, and every negative input stores 0x7FFFFFFF (`Reciprocal.AccurateIffPositive`).
- Interpolation below zero returns the first table entry, one more than its value at zero when that is positive
  (`Interpolation.MonotoneEverywhereIff`).
- The circular buffer's comment speaks of negative increments; only non-negative ones stay inside
  (`CircularBuffer.StaysInBufferIff`).
- `SystemCoreClockUpdate` tests the PLL source-divide bit in place of the HSI pre-divider, so it is wrong by a factor
  of two for two of the eight sources (`ClockTree.DecodeCorrectIff`, `ClockSwitch.DecodeAfterSwitch`), and after
  start-up from the HSI at any frequency reachable from half of it (`ClockSwitch.DecodeAfterBoot`).
- Disabling a pin leaves its EXTI line unmasked, so it is still dispatched while a sibling keeps the vector enabled
  and interrupts are on (`PinIrq.DisabledLineStillDispatchedIff`); an unsupported trigger mode leaves interrupts
  masked (`PinIrq.CriticalSectionIff`), which silences every line and which no later call of the driver
  undoes (`PinIrq.MaskedAfterIff`,
  `PinIrq.OneBadModeSilencesAll`).
- The library documents a PLL of at least 32 MHz; `set_sysclock_to_pll` accepts requests down to 4 MHz
  (`ClockSwitch.PllInRangeIff`, `ClockSwitch.SlowestAccepted`).
- The receive interrupt's overrun report is unreachable on every run of calls, interrupts and transfers (`CanRuns.OverrunNeverReported`).
- An I2C read of one byte sends neither NACK nor STOP (`I2c.ReadStopsIff`). When a message fails, `rt_i2c_xfer` logs
  "send stop condition" but sends none: a failed write has sent no STOP, and a failed read only the one it had itself
  sent, if at most one of two or more bytes was missing (`I2cDriver.WireStops`).

## Model

| member | source | states |
|---|---|---|
| `CanFrame.MessageRoundTrip` | drivers/drv_can.c:642-860 | decoding what a filled mailbox puts on the bus gives back the id, ide, rtr, all eight data bytes and the low four bits of the length, whatever the mailbox held before; the match index does not disturb it |
| `CanFrame.SentBitsAreFrameWord` | drivers/drv_can.c:672-702 | the identifier branches for standard and extended frames both build the one identifier layout the receiver and the filters use |
| `CanFrame.IdentifierRoundTrip` | drivers/drv_can.c:751-790 | identifier, ide and rtr survive the mailbox and FIFO layouts, the request bit set on the way included |
| `CanFrame.LengthRoundTrip` | drivers/drv_can.c:690-794 | only the low four bits of the length travel; the upper bits of the length register are kept |
| `CanFrame.DataRoundTrip` | drivers/drv_can.c:690-806 | the byte order of the two data registers is the same on both sides |
| `CanFrame.HdrIndexMeaning` | drivers/drv_can.c:831-845 | the reported filter index is half the match index rounded up, and negative exactly for the match index 0xFF |
| `CanFrame.FilledIdentifier` | drivers/drv_can.c:672-702 | the identifier word of a filled mailbox in numbers: standard from bit 21, extended from bit 3, bits 2 and 1 for the kind, bit 0 for the request, whatever was there before |
| `CanFrame.SlotFields` | drivers/drv_can.c:756-845 | the same layout on the receiving side, with the length below the match index |
| `CanFrame.FilledIsRequested` | drivers/drv_can.c:702 | filling a mailbox sets its transmit request bit |
| `CanNetwork.StepConserves` | drivers/drv_can.c:709-873 | send, receive, a frame going out, a frame arriving and a looped-back frame each keep: mailboxes hold exactly the sent frames not yet moved, FIFOs the accepted frames not yet returned, and nothing appears from nowhere |
| `CanNetwork.RunConserves` | drivers/drv_can.c:709-873 | the same over every run |
| `CanNetwork.EndToEnd` | drivers/drv_can.c:642-873 | for every interleaving from the empty driver: each FIFO has returned its accepted frames in order, each mailbox has moved its sent frames in order, and the frames sent or arrived are, as a bag, those pending, queued, returned, gone out and overwritten by an overrun |
| `CanDriver.CanModule.CanSendmsgRtmsg` | drivers/drv_can.c:642-707 | fills one empty mailbox from the message, sets its request bit, on which the hardware drops the empty flag, and leaves every other mailbox alone |
| `CanDriver.CanModule.SendMsg` | drivers/drv_can.c:709-749 | succeeds exactly when the empty flag of the chosen mailbox is set, and then its request bit is set; when the flag is clear no register changes |
| `CanDriver.CanModule.RecvMsg` | drivers/drv_can.c:751-873 | an empty FIFO is an error; otherwise the oldest message is decoded and exactly one FIFO slot is released |
| `CanDriver.CanModule.RxIsr` | drivers/drv_can.c:883-934 | one interrupt takes at most one message, the oldest, and leaves the overrun flag down; it reports an overrun only with the flag up and the FIFO empty |
| `CanDriver.CanModule.TxIsr` | drivers/drv_can.c:1137-1156 | reports exactly the completed requests, in ascending order, clears exactly those flags and no empty flag |
| `CanDriver.CanModule.ReportCompletion` | drivers/drv_can.c:1137-1156 | one branch of the transmit interrupt clears its own request-complete flag and no other |
| `CanDriver.ReleaseClearsFlags` | drivers/drv_can.c:847-858 | because the release is a read-modify-write, it clears the full and overrun flags as well |
| `CanDriver.SendRefines` | drivers/drv_can.c:709-749 | a register-level `sendmsg` is a Send step of the message-level system, successful exactly when the mailbox is free |
| `CanDriver.RecvRefines` | drivers/drv_can.c:751-873 | a register-level `recvmsg` is a Receive step and hands over the oldest message |
| `CanDriver.TransferRefines` | drivers/drv_can.c:642-860 | a frame looped back from a requested mailbox to a FIFO on the registers is a Transfer step |
| `CanDriver.DepartRefines` | drivers/drv_can.c:642-707 | a frame leaving a requested mailbox for the bus is a Depart step |
| `CanDriver.ArriveRefines` | drivers/drv_can.c:751-860 | a frame of another node arriving in a FIFO is an Incoming step |
| `CanDriver.RxIsrRefines` | drivers/drv_can.c:883-934 | in a conserved state a receive interrupt, with its own flag writes, is a Receive step that reports no overrun |
| `CanDriver.TxIsrStutters` | drivers/drv_can.c:1137-1156 | a transmit interrupt, with its flag writes, changes nothing at message level |
| `CanRuns.StepRefines` | drivers/drv_can.c:642-934 | each call, interrupt and hardware step is the message-level step of its events, and what is seen of it is what the histories record |
| `CanRuns.RunRefines` | drivers/drv_can.c:642-934 | every register-level run, both interrupts and traffic with other nodes included, follows the message-level run of its events; the histories gain exactly the messages handed over from each FIFO, accepted for each mailbox, put on the bus and received from it |
| `CanRuns.EndToEndOnRegisters` | drivers/drv_can.c:642-934 | from the power-up registers: the messages the callers of each FIFO got are its accepted frames in order, and the messages `sendmsg` accepted together with the frames that arrived are, as a bag, those in the mailbox registers, in the FIFO slots, handed over, gone out on the bus, and overwritten by an overrun |
| `CanRuns.SentInOrder` | drivers/drv_can.c:642-749 | without loopback the messages accepted for a mailbox are those it has put on the bus, in order, followed by the one still in its registers |
| `CanRuns.BusyIsRequested` | drivers/drv_can.c:702-747 | in every state of every run a mailbox that is not empty has its request bit set |
| `CanRuns.CompletedIffOwed` | drivers/drv_can.c:1137-1156 | over every run a request-complete flag is up iff the hardware has finished a request of that mailbox since the last transmit interrupt |
| `CanRuns.DoneReportedIff` | drivers/drv_can.c:1137-1156 | so a transmit interrupt reports a mailbox done iff a request of it was finished since the transmit interrupt before |
| `CanRuns.OverrunNeverReported` | drivers/drv_can.c:883-934 | on no run, both interrupts and arriving frames included, does a receive interrupt report an overrun |
| `CanRuns.OverrunOnlyWhenFull` | drivers/drv_can.c:847-858 | in every reachable state the overrun flag is up only while all three slots of its FIFO are taken |
| `CanFilter.HalvesJoin` | drivers/drv_can.c:543-556 | the four half-words the loop computes are the two bank registers: identifier word and mask or second identifier |
| `CanFilter.MaskModeMeaning` | drivers/drv_can.c:527-556 | in mask mode a frame passes iff ide and rtr equal the item's and the id agrees on every masked bit; only a bank that is switched on and 32 bits wide passes anything |
| `CanFilter.ListModeMeaning` | drivers/drv_can.c:527-556 | in list mode a frame passes iff ide and rtr match and the id equals the item's id or its mask read as an id |
| `CanFilter.LastItemWins` | drivers/drv_can.c:508-567 | each bank holds the encoding of the last item that names it, or names none and stands at its place in the list; a bank no item is aimed at is untouched |
| `CanFilter.FilterRefinement` | drivers/drv_can.c:494-570 | the two together, in the fields of that last item: which frames each bank passes after the whole list, and that the bank is on, 32 bits wide and feeds FIFO 0 |
| `CanFilter.CanFilters.SetFilter` | drivers/drv_can.c:494-570 | the filter loop, with its carried half-words, leaves the banks that applying the encoded items in order leaves |
| `CanFilter.CanFilters.InitFilter` | firmware/n32l43x_std_periph_driver/src/n32l43x_can.c:286-369 | the bank initialisation writes the configured bank |
| `CanFilter.OneBankChanges` | firmware/n32l43x_std_periph_driver/src/n32l43x_can.c:286-369 | and leaves the other thirteen as they were |
| `FixedPoint.ClipQ63ToQ31` | firmware/CMSIS/core/arm_math.h:520-526 | the shift-and-xor clip is the clamp to 32 bits for every 64-bit argument |
| `FixedPoint.QAdd` | firmware/CMSIS/core/arm_math.h:868-873 | the saturating add clamps the exact sum |
| `FixedPoint.QSub` | firmware/CMSIS/core/arm_math.h:879-884 | the saturating subtraction clamps the exact difference |
| `FixedPoint.ClampIsNearest` | firmware/CMSIS/core/arm_math.h:520-526 | the clamp itself: the value inside the range, the nearer end outside it |
| `Reciprocal.CountLeadingZeros` | firmware/CMSIS/core/cmsis_iccarm.h:496-509 | the mask loop returns 32 for zero and otherwise brackets the argument between two powers of two |
| `Reciprocal.Normalise` | firmware/CMSIS/core/arm_math.h:580-595 | the shift takes every nonzero magnitude into [2^30, 2^31) exactly; the returned count is one more than the shift |
| `Reciprocal.RecipQ31` | firmware/CMSIS/core/arm_math.h:573-618 | two Newton steps from the table entry of the normalised input, every table index in range; for every table within 2^-6 the stored value has an error between 0 and (2^37 + 2^33)/2^61 iff the input is positive, and is 0x7FFFFFFF for every negative one |
| `Reciprocal.CorrectionIsExact` | firmware/CMSIS/core/arm_math.h:604-611 | the two 32-bit wraps in the correction term cancel |
| `Reciprocal.StepSquaresError` | firmware/CMSIS/core/arm_math.h:604-611 | each step squares the relative error abs(2^61 - in*out)/2^61 up to a truncation term, without wrap or saturation, and ends below the true reciprocal |
| `Reciprocal.TwoStepsConverge` | firmware/CMSIS/core/arm_math.h:604-615 | a seed within 2^-6 leaves an error between 0 and (2^37 + 2^33)/2^61, that is 2^-24 + 2^-28 |
| `Reciprocal.PositiveInputConverges` | firmware/CMSIS/core/arm_math.h:596-615 | that bound for every normalised value and every table whose entries are within 2^-6 |
| `Reciprocal.AccurateIffPositive` | firmware/CMSIS/core/arm_math.h:596-615 | on that one hypothesis, over normalised values of either sign and zero, the stored value is that accurate iff the value is positive (the comment promises the reciprocal for both signs) |
| `Reciprocal.NegativeInputSaturates` | firmware/CMSIS/core/arm_math.h:596-615 | a negative value clips to 0x7FFFFFFF for every table with entries of at least 2^30, normalised or not |
| `Reciprocal.MidpointTableIsGood` | firmware/CMSIS/core/arm_math.h:598-602 | such a table exists: cell midpoints, rounded |
| `Interpolation.InnerValue` | firmware/CMSIS/core/arm_math.h:5529-5571 | between knots every access is in bounds, no conversion drops a bit, and the value lies in [min(y0, y1) - 1, max(y0, y1)] |
| `Interpolation.FollowsChord` | firmware/CMSIS/core/arm_math.h:5543-5570 | the value times 2^20 is at most the chord through the two knots, less the first of them, and more than 2^20 below that never |
| `Interpolation.HeldAtTheEnds` | firmware/CMSIS/core/arm_math.h:5544-5551 | outside the table the first or last entry is held |
| `Interpolation.SegmentsJoin` | firmware/CMSIS/core/arm_math.h:5529-5571 | the value at fraction 0xFFFFF of a segment equals the value at fraction 0 of the next |
| `Interpolation.MonotoneForNonNegative` | firmware/CMSIS/core/arm_math.h:5529-5571 | a nondecreasing table gives a nondecreasing function of x >= 0, across segments and into the clamped tail |
| `Interpolation.MonotoneEverywhereIff` | firmware/CMSIS/core/arm_math.h:5529-5571 | over all x it is monotone iff the table has one entry or its first entry is not positive: the clamp below zero is one above the value at zero |
| `Interpolation.Q7IsQ15` | firmware/CMSIS/core/arm_math.h:5586-5628 | the q7 routine computes the q15 one on the same table |
| `Clarke.ForwardIsExactIff` | firmware/CMSIS/core/arm_math.h:4995-5014 | Ialpha is exact always; Ibeta is the sum of the two rounded products iff the second product fits 32 bits and the sum does not clip |
| `Clarke.ForwardSaturatesIff` | firmware/CMSIS/core/arm_math.h:4987-5014 | the comment's promise, exactly: Ibeta is the saturated sum of the two rounded products iff Ib is in the range where the second product fits |
| `Clarke.SecondProductFitsIff` | firmware/CMSIS/core/arm_math.h:5004-5010 | the exact range of Ib in which the second product fits |
| `Clarke.FullScaleWraps` | firmware/CMSIS/core/arm_math.h:4987-5014 | outside it the comment's promise fails: full-scale positive Ib gives a negative Ibeta |
| `Clarke.ConstantsAreRoots` | firmware/CMSIS/core/arm_math.h:5004-5104 | the three constants are the roots they stand for, rounded down |
| `Clarke.InverseIsExact` | firmware/CMSIS/core/arm_math.h:5092-5111 | no product of the inverse is truncated; only its final subtraction saturates |
| `Clarke.RoundTrip` | firmware/CMSIS/core/arm_math.h:4995-5111 | inverse after forward returns Ia exactly and Ib to within -3..+1 units, on exactly the inputs where the forward transform is exact |
| `Pid.PidQ15.Process` | firmware/CMSIS/core/arm_math.h:4857-4897 | the scalar form computes the clamped recurrence with no intermediate overflow and shifts its state |
| `Pid.RunIsDifferenceEquation` | firmware/CMSIS/core/arm_math.h:4857-4897 | over every run the state is (x[n-1], x[n-2], y[n-1]) and each output is clamp16(y[n-1] + floor((A0 x[n] + A1 x[n-1] + A2 x[n-2]) / 2^15)) |
| `Pid.PackedVersusScalar` | firmware/CMSIS/core/arm_math.h:4857-4897 | the packed form from the same state differs by 0 or +1, and by 1 exactly when the stray 1 carries and the result is not saturated |
| `Pid.SmuadOfSignExtended` | firmware/CMSIS/core/arm_math.h:962-969 | the stray 1: the sign-extended high halves add 1 exactly when both factors are negative |
| `Pid.SmlaldStandInIff` | firmware/CMSIS/core/arm_math.h:932-942 | the C stand-in agrees with the instruction on every pair of words except the one whose four halves are all -32768 |
| `CircularBuffer.MovedIsPos` | firmware/CMSIS/core/arm_math.h:5800-5823 | with 0 <= offset < L and 0 <= inc <= L the k-th access is at (offset + k*inc) mod L |
| `CircularBuffer.StaysInBufferIff` | firmware/CMSIS/core/arm_math.h:5813-5816 | those bounds are exact: every access stays inside for all block sizes iff they hold (the comment mentions negative increments, which escape) |
| `CircularBuffer.SlidingWindow` | firmware/CMSIS/core/arm_math.h:5786-5824 | after unit-increment writes the buffer holds exactly the last L samples in circular order and untouched cells keep their contents |
| `CircularBuffer.LastSampleWins` | firmware/CMSIS/core/arm_math.h:5786-5824 | with any increment a cell holds the last sample that went to it, and a cell none went to is as before |
| `CircularBuffer.WritesCompose` | firmware/CMSIS/core/arm_math.h:5786-5824 | consecutive blocks behave like one block |
| `CircularBuffer.WriteThenRead` | firmware/CMSIS/core/arm_math.h:5786-5880 | a block of at most L samples reads back from its starting offset |
| `CircularBuffer.CircularWrite` | firmware/CMSIS/core/arm_math.h:5786-5824 | the write loop stores the source samples at those positions and returns the moved offset, which fits 16 bits |
| `CircularBuffer.CircularRead` | firmware/CMSIS/core/arm_math.h:5831-5880 | the read loop delivers the samples at those positions to a destination that wraps when it lands on its end |
| `CircularBuffer.DestinationWraps` | firmware/CMSIS/core/arm_math.h:5855-5863 | if the step divides the destination and the way to its end, the destination is a circular buffer too |
| `CircularBuffer.BlockLands` | firmware/CMSIS/core/arm_math.h:5855-5863 | a block no longer than the destination lands in it unchanged, a step apart |
| `CircularBuffer.WriteAndReadBack` | firmware/CMSIS/core/arm_math.h:5786-5880 | the two routines called in turn copy the block |
| `PinIrq.RunKeepsInv` | drivers/drv_gpio.c:415-597 | in every state reached by attach, detach, enable and disable with any arguments: a vector is enabled in the NVIC iff some enabled line maps to it, every occupied slot is owned by a pin of its line, and every enabled line is unmasked |
| `PinIrq.StepKeepsInv` | drivers/drv_gpio.c:415-597 | each call keeps that invariant |
| `PinIrq.EnableIsExact` | drivers/drv_gpio.c:503-558 | enabling succeeds iff the line is bound with one of the three modes; then it listens on the port of the pin, for exactly the edges of the mode, with nothing pending; otherwise only the global mask may change |
| `PinIrq.DisableIsExact` | drivers/drv_gpio.c:559-597 | disabling takes the line out of the enabled ones, and its vector out of the NVIC iff no other enabled line needs it |
| `PinIrq.DisableSparesOthers` | drivers/drv_gpio.c:544-597 | disabling one pin never silences another enabled line |
| `PinIrq.CriticalSectionIff` | drivers/drv_gpio.c:488-597 | the global interrupt mask is restored by every call except enabling a line with an unsupported trigger mode |
| `PinIrq.VectorLines` | drivers/drv_gpio.c:149-167 | the lines a vector handler walks are those the map assigns to it: 5 to 9, 10 to 15, or a single one |
| `PinIrq.DispatchExact` | drivers/drv_gpio.c:614-681 | each vector handler runs, in ascending order and once each, exactly the attached handlers of its pending unmasked lines, and clears exactly those pending bits |
| `PinIrq.BindingKept` | drivers/drv_gpio.c:415-597 | a binding survives every run without a detach of its line |
| `PinIrq.EdgesKept` | drivers/drv_gpio.c:415-597 | over every run without a detach of the line it keeps the edges of its mode, and it is routed from the port of the pin of the line enabled last |
| `PinIrq.DispatchedIff` | drivers/drv_gpio.c:614-681 | an edge on an unmasked line with a handler runs that handler, once, iff the line is routed from that port and set for that edge, or pending already, its vector is enabled and interrupts are not disabled globally |
| `PinIrq.DisabledLineStillDispatchedIff` | drivers/drv_gpio.c:544-597 | a disabled line keeps its handler, port and edges and stays unmasked, so the edges it was enabled for still run the handler iff a sibling keeps the vector enabled and interrupts are on |
| `PinIrq.MaskedAfterIff` | drivers/drv_gpio.c:488-597 | interrupts are disabled after a run iff they were before it or some call of it enabled a line with an unsupported trigger mode; no later call turns them on again |
| `PinIrq.AttachedAndEnabledIsDelivered` | drivers/drv_gpio.c:415-681 | after attach and enable, and any further calls that neither detach nor disable that line, an edge runs exactly that handler with its arguments iff the mode asks for that edge, it is on the port of the pin of the line enabled last, interrupts were on and none of those calls enabled a line with an unsupported trigger mode |
| `PinIrq.OneBadModeSilencesAll` | drivers/drv_gpio.c:527-536 | such a call on pin 17 leaves every edge on the attached and enabled line 0 without a handler call |
| `PinIrqDriver.Bit2BitNo` | drivers/drv_gpio.c:351-362 | the index of the only set bit, or -1 when there is none |
| `PinIrqDriver.ExtiManager.IrqIndex` | drivers/drv_gpio.c:191-207 | the EXTI line of a known pin, or -1 |
| `PinIrqDriver.ExtiManager.AttachIrq` | drivers/drv_gpio.c:415-454 | the attach routine is the Attach step, result code included |
| `PinIrqDriver.ExtiManager.DettachIrq` | drivers/drv_gpio.c:456-486 | the detach routine is the Detach step |
| `PinIrqDriver.ExtiManager.PinIrqEnable` | drivers/drv_gpio.c:488-597 | the enable/disable routine is the IrqEnable step, its early exit included |
| `PinIrqDriver.ExtiManager.VectorIsQuiet` | drivers/drv_gpio.c:567-588 | the mask tests say whether another enabled line still needs the vector |
| `PinIrqDriver.GroupQuiet` | drivers/drv_gpio.c:567-588 | the two group masks select exactly the lines of the two shared vectors |
| `PinIrqDriver.ExtiManager.NvicPut` | firmware/CMSIS/core/core_cm4.h:1688-1732 | enabling or disabling one interrupt changes that bit of the register array and no other |
| `PinIrqDriver.ExtiManager.ExtiIrqHandler` | drivers/drv_gpio.c:614-629 | one line: the handler if attached, then its pending bit |
| `PinIrqDriver.ExtiManager.ExtiSingleHandler` | drivers/drv_gpio.c:631-660 | each of the five handlers for lines 0 to 4 serves its own vector |
| `PinIrqDriver.ExtiManager.Exti9To5Handler` | drivers/drv_gpio.c:661-669 | the handler for lines 5 to 9 serves that vector |
| `PinIrqDriver.ExtiManager.Exti15To10Handler` | drivers/drv_gpio.c:671-681 | the handler for lines 10 to 15 serves that vector |
| `ClockRegisters.MulRoundTrip` | drivers/drv_pm.c:148-159 | the multiplier field decodes to the multiplier for 2..32, the split at bit 27 between 16 and 17 included |
| `ClockRegisters.ConfigPllView` | firmware/n32l43x_std_periph_driver/src/n32l43x_rcc.c:531-560 | configuring the PLL sets source, pre-dividers, multiplier and halving and no other field |
| `ClockTree.ApplyMeansStep` | firmware/n32l43x_std_periph_driver/src/n32l43x_rcc.c:432-688 | every library call changes exactly the fields it is meant to |
| `ClockTree.MulFieldRange` | firmware/CMSIS/device/system_n32l43x.c:359-366 | any register contents decode to a multiplier in 2..32, without wrap |
| `ClockTree.DecodeCorrectIff` | firmware/CMSIS/device/system_n32l43x.c:329-413 | over all register contents the decoder returns the PLL frequency iff the HSE is used or the two HSI dividers agree; otherwise it is off by exactly two |
| `ClockTree.DecodeOffPll` | firmware/CMSIS/device/system_n32l43x.c:340-357 | off the PLL the decoder always agrees: 16 MHz, 8 MHz or one of the seven MSI frequencies |
| `ClockTree.HclkDivider` | firmware/CMSIS/device/system_n32l43x.c:406-412 | what each AHB divider code does to the decoded frequency |
| `ClockSwitch.SwitchIsSound` | drivers/drv_pm.c:45-206 | for every accepted request and any prior clocks the PLL runs at the requested frequency, with no bus divided more than its limit needs, and every call from the MSI selection on is allowed and leaves HCLK, PCLK1 and PCLK2 within limits iff the frequency is at most 108 MHz |
| `ClockSwitch.EveryStateWithinLimits` | drivers/drv_pm.c:173-205 | call by call on the registers: the PLL is stopped and reprogrammed only off the system clock, and every state keeps HCLK <= 32 MHz * (latency + 1), PCLK1 <= 27 MHz, PCLK2 <= 54 MHz |
| `ClockSwitch.SoundAtEveryCall` | drivers/drv_pm.c:173-205 | what soundness of a run says of each single call |
| `ClockSwitch.PllInRangeIff` | firmware/n32l43x_std_periph_driver/src/n32l43x_rcc.c:514-531 | the documented lower limit of the PLL, 32 MHz, is kept throughout a switch iff the request is at least that |
| `ClockSwitch.SwitchWithinAllLimitsIff` | drivers/drv_pm.c:45-206 | all documented limits together: an accepted request keeps them throughout iff it lies between 32 and 108 MHz |
| `ClockSwitch.SlowestAccepted` | drivers/drv_pm.c:148-159 | the multiplier test itself accepts requests down to 4 MHz |
| `ClockSwitch.AcceptedIff` | drivers/drv_pm.c:81-159 | the multiplier test accepts a multiple of the input frequency iff the factor is in 2..32 |
| `ClockSwitch.LimitsIff` | drivers/drv_pm.c:134-147 | at the target frequency the chosen wait states and bus dividers suffice iff it is at most 108 MHz |
| `ClockSwitch.RelockedHz` | drivers/drv_pm.c:81-190 | source, multiplier and halving words written to the PLL make it run at input times multiplier |
| `ClockSwitch.DecodeAfterSwitch` | drivers/drv_pm.c:45-206 | after a switch the decoder in the other file returns the request for six of the eight sources; for HSIDIV2 twice it and for HSI_PLLDIV2 half of it |
| `ClockSwitch.RegisterRoundTrip` | drivers/drv_pm.c:45-206 | the same from any register contents, the MSI started first if it was off and stopped again after |
| `ClockSwitch.BootIsSound` | firmware/CMSIS/device/system_n32l43x.c:419-629 | from reset every buildable frequency runs, stays within limits iff it is at most 108 MHz, and wastes no wait state and no bus divider |
| `ClockSwitch.BuildableIff` | firmware/CMSIS/device/system_n32l43x.c:122-192 | which frequencies the macros accept, in numbers |
| `ClockSwitch.DecodeAfterBoot` | firmware/CMSIS/device/system_n32l43x.c:122-192 | after start-up the decoder agrees unless the HSI is used and the frequency is reachable from half of it; then it reports twice the frequency |
| `ClockSwitch.LatencyFormulas` | firmware/CMSIS/device/system_n32l43x.c:513-520 | the start-up and run-time latency formulas differ by one wait state exactly at multiples of 32 MHz |
| `ClockDriver.Rcc.SetSysclockToPll` | drivers/drv_pm.c:45-206 | rejects a frequency exactly when the multiplier test fails, before any clock register changes; otherwise makes exactly the switching sequence of calls |
| `ClockDriver.Rcc.SetSysClock` | firmware/CMSIS/device/system_n32l43x.c:419-629 | the bit-setting start-up code makes the start-up sequence of calls |
| `ClockDriver.Rcc.ResetClocks` | firmware/CMSIS/device/system_n32l43x.c:218-247 | the reset at the head of `SystemInit` clears every field the start-up code later only sets |
| `ClockDriver.Rcc.SystemCoreClockUpdate` | firmware/CMSIS/device/system_n32l43x.c:329-413 | leaves the decoded frequency in the global |
| `ClockDriver.Rcc.SwitchAndUpdate` | drivers/drv_pm.c:45-206 | switch, then update: the global equals the request iff the source is not one of the two |
| `PmTick.Conservation` | drivers/drv_pm.c:208-220 | over any run 1000 times the returned ticks plus the remainder equals the rate times the timer ticks plus the first remainder, less 2^32 per wrap: exact iff nothing wraps |
| `PmTick.CounterRunsConserve` | drivers/drv_pm.c:208-220 | readings of the 16-bit counter never wrap for rates up to 65536 per second, so nothing is lost over any run |
| `PmTick.SafeRatesIff` | drivers/drv_pm.c:208-220 | that bound on the rate is exact |
| `PmTick.NeverOverCredited` | drivers/drv_pm.c:222-299 | a sleep of t ticks read back at any counter value it can reach is credited with at most t ticks, for any rate and remainder |
| `PmTick.FullSleepCredit` | drivers/drv_pm.c:222-299 | a sleep that runs out is credited to within one timer period |
| `PmTick.ProgrammedIsLargest` | drivers/drv_pm.c:222-286 | the programmed counter is the largest up to 0xFFFF whose time does not exceed the 32-bit product, so a longer sleep is cut to 0xFFFF |
| `PmTick.PmTimer.OsTickFromPmTick` | drivers/drv_pm.c:208-220 | the conversion with its static remainder follows the run functions |
| `PmTick.PmTimer.Start` | drivers/drv_pm.c:260-286 | programs the converted, capped timeout; RT_TICK_MAX only stops the timer |
| `PmTick.PmTimer.Sleep` | drivers/drv_pm.c:260-299 | start, wake and read back: never more ticks than asked |
| `Delay.ReadingsApart` | drivers/drv_i2c.c:156-164 | for two reads less than a period apart the three branches add the elapsed counts, less one at a reload |
| `Delay.Udelay` | drivers/drv_i2c.c:144-174 | the loop leaves at the first reading that has moved and counted far enough, and by then at least the requested counts have passed, and one more for every reload seen |
| `Delay.Overshoot` | drivers/drv_i2c.c:144-174 | the overshoot is less than the last sampling gap plus the reloads |
| `Delay.WholeTicks` | drivers/drv_i2c.c:144-174 | a delay of n system ticks spans n periods less at most one count |
| `Delay.TicksExactIff` | drivers/drv_i2c.c:150 | the 32-bit tick product is the intended one iff it does not overflow |
| `Delay.TicksValue` | drivers/drv_i2c.c:150 | its value in any case: the wrapped product over the counts of a microsecond, rounded down |
| `I2cDriver.I2cBus.Wait` | drivers/drv_i2c.c:228-236 | a timed wait fails iff timeout + 1 polls in a row are not ready |
| `I2cDriver.I2cBus.Open` | drivers/drv_i2c.c:300-324 | idle, START, address: with each error code, which events are on the bus and which of the three waits ran out |
| `I2cDriver.I2cBus.Write` | drivers/drv_i2c.c:300-347 | a prefix of the buffer goes out in order behind START and the address for writing; each code says how far it got, which waits succeeded and that the next one ran out; the whole call polls at most 40961 * (len + 4) times |
| `I2c.WriteSucceedsIff` | drivers/drv_i2c.c:300-347 | 0 is returned iff START, the address for writing and the whole buffer went out, in order, followed by a STOP |
| `I2c.AddressPhase` | drivers/drv_i2c.c:228-347 | every transfer in full: a write addresses the slave for writing and a read for reading, then the bytes, and only a complete one goes on |
| `I2c.BytesInOrder` | drivers/drv_i2c.c:325-337 | one event for each byte, in order |
| `I2cPolls.WriteIsDetermined` | drivers/drv_i2c.c:300-347 | the answers of the polled flags decide what a write returns, how far it gets and how many polls it takes |
| `I2c.WriteStops` | drivers/drv_i2c.c:300-347 | that STOP is the only one, and a failing write sends none (the bus is left open) |
| `I2cDriver.I2cBus.Read` | drivers/drv_i2c.c:228-298 | the first bytes of the buffer are the bytes the slave sends, in order, the rest is unchanged; each outcome says what is on the bus and how the polls went, the last wait living on what the wait for the address left of its timeout |
| `I2c.ReceptionShape` | drivers/drv_i2c.c:257-281 | for len >= 2 NACK and STOP come once, after the last byte but one and before the last; for len <= 1 not at all |
| `I2c.ReadSucceeds` | drivers/drv_i2c.c:228-298 | the whole trace of a successful read, event by event |
| `I2c.ReadStopsIff` | drivers/drv_i2c.c:228-298 | whatever the outcome, a read has sent one STOP if len >= 2 and at most one byte was still missing, and none otherwise |
| `I2cDriver.WireStops` | drivers/drv_i2c.c:351-388 | a whole transfer puts exactly the STOPs of its messages on the bus; the failure branch, which logs that it sends one, adds none |
| `I2cDriver.I2cBus.Xfer` | drivers/drv_i2c.c:351-388 | returns the number of messages iff every one succeeded, otherwise -1 at the first that failed; the bus carries the traces of the messages tried, in order; the read messages deliver the slave's bytes, in order, and a buffer no message reads into goes out as it was |
| `MpuLoad.ChunkIsSetAll` | firmware/CMSIS/core/mpu_armv7.h:246-253 | up to four entries copied over the alias pairs do what setting them one by one does |
| `MpuLoad.RbarFields` | firmware/CMSIS/core/mpu_armv7.h:75-78 | the base, VALID and REGION fields of a table word |
| `MpuLoad.LastEntryWins` | firmware/CMSIS/core/mpu_armv7.h:259-268 | after a load each region holds the last entry that lands in it and the others are untouched |
| `MpuLoad.WithoutValid` | firmware/CMSIS/core/mpu_armv7.h:223-227 | without VALID a table collapses into the region selected beforehand |
| `MpuLoad.MpuUnit.OrderedCpy` | firmware/CMSIS/core/mpu_armv7.h:246-253 | copies the words in order to ascending register offsets |
| `MpuLoad.MpuUnit.Load` | firmware/CMSIS/core/mpu_armv7.h:259-268 | for every table and count the chunked load equals setting each entry in order, with two writes an entry, all to the four RBAR/RASR pairs |
| `NvicPriority.Widths` | firmware/CMSIS/core/core_cm4.h:1865-1870 | for every group and 1..8 priority bits the two widths sum to the priority bits |
| `NvicPriority.GroupSplitsTheByte` | firmware/CMSIS/core/core_cm4.h:1863-1901 | what a group means on the priority byte: the bits above bit group preempt, as far as they are implemented |
| `NvicPriority.GroupSplitsTheByteBelow` | firmware/CMSIS/core/core_cm4.h:1890-1901 | and the group + 1 bits below are the sub-priority |
| `NvicPriority.GroupIsThreeBits` | firmware/CMSIS/core/core_cm4.h:1865-1876 | only the low three bits of the group count |
| `NvicPriority.DecodeAfterEncode` | firmware/CMSIS/core/core_cm4.h:1863-1901 | decode after encode returns both fields cut to their widths, and the code fits the priority bits |
| `NvicPriority.EncodeAfterDecode` | firmware/CMSIS/core/core_cm4.h:1863-1901 | encode after decode is the identity below 2^bits |
| `NvicPriority.OrderIsLexicographic` | firmware/CMSIS/core/core_cm4.h:1863-1876 | encoded order is lexicographic order on preemption then sub-priority |
| `NvicPriority.DecodePriority` | firmware/CMSIS/core/core_cm4.h:1890-1901 | the decoder with its two results, which encode back to the priority |
| `NvicPriority.StoredReadsBack` | firmware/CMSIS/core/core_cm4.h:1816-1849 | a priority written to its register byte reads back cut to the implemented bits |
| `NvicPriority.ThroughTheRegister` | firmware/CMSIS/core/core_cm4.h:1816-1901 | encode, set, get, decode lose only what the widths cut off |

## Left out

- Oscillator and PLL start-up failures: the HSI, HSE, MSI and PLL always become ready; the infinite loops that handle failures are not modelled, nor is the guard on HSE_VALUE, which is constant. A rejected PLL frequency, which also loops forever, is reported as `false`.
- The delay between writing the system clock switch and the hardware following it: the status bits follow at once. `set_sysclock_to_pll` does not wait for them after selecting the MSI.
- The rest of the flash and power registers: the flash wait states are a number, not a field of a word.
- Concurrency inside a critical section: interrupt handlers are atomic steps, and no interrupt falls between two register writes of a driver call.
- CAN hardware behaviour the driver's own code does not show (a mailbox is taken, and its frame sent, only once its request bit is set; a full FIFO overwrites its newest slot, a write of one clears a flag, a release frees the oldest slot, a finished request raises its completion flag and a new one leaves that flag alone) is taken from the peripheral library's flag routines and stated in `CanDriver`; which FIFO an arriving frame goes to is left open in the runs; arbitration, errors, bit timing and automatic retransmission are not modelled.
- The CAN filter command with a null argument (it re-applies the current configuration) and items whose mode or identifier kind is neither of the two defined ones, for which the loop reuses values of the previous item.
- CanFilter.CanFilters.SetFilter: covers lists whose target bank lies in 0..13; the library does not check the bank number.
- Reciprocal.RecipQ31: the most negative input is excluded, since the C negation of it is undefined; the table's contents are not part of this repository, so accuracy is stated for every table within 2^-6, and `Reciprocal.MidpointTableIsGood` shows that one exists.
- Clarke.RoundTrip: the bound is stated on the inputs where the forward transform is exact, which `Clarke.ForwardIsExactIff` characterises.
- CircularBuffer.CircularWrite: source and buffer are distinct arrays, and so are destination and buffer in `CircularBuffer.CircularRead`; the C pointers may overlap.
- The instruction forms of `__SMUAD`, `__SMLALD` and `__SSAT` follow the Armv7-M architecture; only the C stand-ins have bodies in the repository.
- `arm_pid_q31`, the q31 and bilinear interpolations, Park transforms and the remaining DSP functions: either they are only declared, or they repeat the arithmetic modelled here.
- `arm_recip_q15`: the same scheme at half the width.
- PinIrqDriver.ExtiManager.PinIrqEnable: the AFIO source selection is one field per line, an edge is detected if its port is that field and its direction is selected, and the NVIC priority writes are not modelled; pin numbers are those of the full four-port table.
- `get_pin` receives its pin number truncated to eight bits; the model keeps that truncation, so numbers that agree modulo 256 name the same pin.
- I2cDriver.I2cBus.Read: the data loop has no timeout, so it is followed for a given number of polls and reported as `Hung` if it is still waiting then.
- I2cDriver.I2cBus.Xfer: the number of messages is small enough for the signed result.
- Delay.Udelay: the readings are given as a finite list, each less than one counter period after the one before; a wait that outlasts the list is reported as not done. System tick rates are at most 500000 per second.
- PmTick.PmTimer.Start: stopping the timer takes effect at once; prescaler, interrupt enable and compare value are not modelled.
- MpuLoad.MpuUnit.Load: region numbers are the four-bit field; how many regions an implementation has is not modelled, and the memory barriers of the enable and disable routines are left out.
- Priority levels are coded for a given number of bits between one and eight; setting the group itself, which writes a keyed register, is left out.
- The vendor's register headers define device constants; the values used here are written into the model.
- Serial, ADC, DAC, RTC, SPI, watchdog and hardware-timer drivers, board start-up, pin multiplexing and peripheral clock gating: register plumbing without an algorithm of its own.
- Floating-point functions and inline-assembly intrinsics.
