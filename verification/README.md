# Driver-core models

Dafny models of the bookkeeping cores of a Linux 5.4 driver tree for Realtek cameras, with proofs about every run
of each of them. `dafny verify dfyconfig.toml` checks everything.

Each component has a layer of functions on values that says what every operation does, theorems about that layer,
and (where the kernel code changes things in place) a class whose methods carry the operations out step by step and
are proved to agree with the functions. What drivers, the module loader, the clock and the devices on a bus answer
is never fixed: it is an arbitrary function or list, so each statement covers every mix of successes and failures. A
section of code that runs under one lock is one step.

| files | component |
|---|---|
| Pinmux, PinctrlCore, PinctrlSystem, PinctrlAnswers, PinExclusivity, Rts3917, PinctrlDev | pin ownership, state selection with rollback, the rts3917 exclusion bits |
| GpioArray, GpioBulk, GpioWire, GpioNumbers | masks of GPIO arrays, bulk read and write, what writes put on the wire, the GPIO number space |
| DwSpi, DwSpiDriver | DesignWare SPI flow control |
| RtcTimers, RtcWork, RtcSchedule, RtcDevice, RtcRange, RtcRollover | RTC timer queue, firing times, range expansion, alarm rollover |
| RtsThermal, CoolingStats | thermal sensor conversion, cooling statistics |
| Eeprom, PwmNumbers | I2C slave EEPROM, PWM number allocation |

Properties one would expect that the code does not have, each with a concrete failing input and the exact condition
under which it holds:

- Releasing a pinctrl state gives back everything it took only if its mux groups are pairwise disjoint
  (`PinctrlCore.RoundTripLeavesNothingIffDisjoint`; `PinctrlCore.OverlapLeaks` is an example). The comment on
  `mux_usecount` in drivers/pinctrl/core.h:135-139 says several map entries may claim the same pin; the code then
  loses count.
- `pinmux_enable_setting` treats any nonzero driver answer as failure, `pinctrl_commit_state` only a negative one. A
  handle holds all of the state it has recorded if and only if the driver accepted every setting of it
  (`PinctrlCore.ClaimedIffAccepted`, `PinctrlAnswers.SelectCoversIffAccepted`, `PinctrlAnswers.SelectKeepsLedgerIff`;
  `PinctrlSystem.PositiveAnswerBreaksLedger` is an example). The counts and owners of the pins are right under every
  driver all the same (`PinctrlAnswers.BooksOverRuns`).
- When `gpiod_get_array` gives up the fast path it leaves `descs->info` set to masks that do not fit. A bulk write
  through them equals single writes for all values, and a bulk read single reads in every state of the lines, if and
  only if the fast path was not given up (`GpioArray.GetArray`, `GpioBulk.BulkWriteIffNotDropped`,
  `GpioBulk.BulkReadIffNotDropped`; `GpioBulk.DroppedMasksMisdirect` is an example).
- A retry in `rtc_timer_do_work` reuses an alarm that `__rtc_set_alarm` has converted to hardware time already. The
  work keeps every device awake, under every driver, if and only if the offset is not negative or leaves no future
  time to convert (`RtcWork.WorkKeepsIffOffset`). Otherwise it can arm an alarm that has passed, which never goes off
  (`RtcWork.LateRetryLosesAlarm`, reached from a registered device in `RtcWork.LostWakeupIsReached`).
- With a positive offset a converted alarm is not given up after four attempts; the work starts over, and goes on with
  the lock held for as long as programming fails (`RtcWork.NeverGivenUp`, `RtcWork.FailuresAreEndless`). With a
  readable clock and a driver that does not answer -ETIME itself, the number of driver calls is bounded by the timers
  queued and fired if and only if the offset is not positive (`RtcWork.WorkBoundedIffOffset`).
  `RtcWork.LateAnswersAreEndless` and `RtcWork.BlindSweepsAreEndless` show why both provisos are needed.
- `temp2code` keeps the order of temperatures, and converting back never overshoots, only away from the points
  where unsigned arithmetic wraps (`RtsThermal.Temp2CodeMonotoneIff`, `RtsThermal.RoundTripIff`;
  `RtsThermal.Temp2CodeOrderBreaks` and `RtsThermal.RoundTripBreaks` are examples).
- A rolled-over alarm lies after now if and only if the fields coarser than the missing one agree with the clock
  (`RtcRollover.Resolve`; `RtcRollover.StaysBehind` is an example).

## Model

| member | source | states |
|---|---|---|
| Pinmux.RequestEffect | drivers/pinctrl/pinmux.c:105-191 | A mux request of a single pin either changes no pin record, or the pin was free or already the owner's and exactly its count goes up by one |
| Pinmux.RequestGrantedIff | drivers/pinctrl/pinmux.c:105-191 | Exactly when a mux or GPIO request of a pin is granted, under any driver, and what it then leaves in the pin record, the references and the mask; a refused request leaves nothing and returns -EINVAL or the driver's answer |
| Pinmux.FreeTakesBack | drivers/pinctrl/pinmux.c:204-250 | Freeing a pin takes a granted mux or GPIO request back without a trace |
| Pinmux.AcquireEffect | drivers/pinctrl/pinmux.c:428-446 | The acquire loop raises every pin of the group by its number of occurrences, up to the first failure |
| Pinmux.AcquireReturns | drivers/pinctrl/pinmux.c:428-446 | The loop returns 0 if every pin is granted and otherwise the answer to the first pin refused |
| Pinmux.ReleaseEffect | drivers/pinctrl/pinmux.c:473-476 | The backwards release loop undoes the acquire loop exactly, from wherever it failed |
| Pinmux.EnableEffect | drivers/pinctrl/pinmux.c:401-480 | Enabling a setting claims its pins and records the setting, or fails and leaves every pin record as it was |
| Pinmux.DisableEffect | drivers/pinctrl/pinmux.c:482-530 | Disabling lowers exactly the pins that still carry the setting, by their occurrences in the group |
| PinctrlCore.ClaimedIffAccepted | drivers/pinctrl/core.c:1260-1278 | A setting is claimed if and only if the driver grants its pins and answers set_mux with 0; otherwise it leaves no trace, though a positive answer counts as applied |
| PinctrlCore.ApplyEffect | drivers/pinctrl/core.c:1259-1284 | The apply loop claims exactly the settings before the one that failed, or all of them |
| PinctrlCore.ApplyReturns | drivers/pinctrl/core.c:1259-1284 | The apply loop stops at the first setting answered with a negative number and returns that answer |
| PinctrlCore.DisableClaimed | drivers/pinctrl/core.c:1243-1255 | Dropping a state lowers each pin by what the last setting naming it claimed, and by no more |
| PinctrlCore.RoundTripLeavesNothingIffDisjoint | drivers/pinctrl/core.c:1243-1284 | Applying then dropping a state leaves a count of all occurrences minus those in the last group; every pin is as before if and only if the mux groups are disjoint |
| PinctrlCore.OverlapLeaks | drivers/pinctrl/core.h:135-139 | Two groups sharing a free pin apply without error and leave the pin with count 1 and an owner after the state is dropped |
| PinctrlCore.ApplyOrUndo | drivers/pinctrl/core.c:1259-1303 | From a state-free handle, either the whole new state is claimed or undoing the applied part restores every pin |
| PinctrlCore.CommitEffect | drivers/pinctrl/core.c:1237-1310 | After a commit the handle holds exactly the new state, the old one or none, the first if and only if it returned 0; nesting is at most two deep |
| PinctrlCore.CommitReturns | drivers/pinctrl/core.c:1237-1310 | A commit returns 0 and selects the state if no setting of it fails, and otherwise the answer to the first that does, be it a pin, set_mux or the pin configuration |
| PinctrlSystem.StepKeepsLedger | drivers/pinctrl/core.c:1153-1175 | Every get, select, put, GPIO request and GPIO free keeps the ledger balanced |
| PinctrlSystem.LedgerOverRuns | drivers/pinctrl/core.c:1237-1322 | Over every run of any number of devices, a pin's count is how often it occurs in its owner's selected state, its setting is the one naming it, and it has no owner exactly when the count is 0, whatever fails on the way |
| PinctrlSystem.PositiveAnswerBreaksLedger | drivers/pinctrl/core.c:1276-1278 | A driver answering 1 from set_mux makes the ledger false after one selection |
| PinctrlAnswers.ApplyPart | drivers/pinctrl/core.c:1259-1284 | Under any driver, applying a state claims exactly the settings that were accepted, up to where it stopped |
| PinctrlAnswers.DropRestores | drivers/pinctrl/core.c:1243-1255 | Dropping a state of which only some settings are held gives back exactly those |
| PinctrlAnswers.CommitPart | drivers/pinctrl/core.c:1237-1310 | Under any driver, a commit ends with what its last apply loop took of the new or the old state, or with nothing; nesting is at most two deep |
| PinctrlAnswers.SelectCoversIffAccepted | drivers/pinctrl/core.c:1237-1322 | After a selection the handle records the last state tried if applying it did not fail, and holds all of it if and only if the driver accepted every setting of it that names a pin; other handles are not affected |
| PinctrlAnswers.SelectKeepsLedgerIff | drivers/pinctrl/core.c:1276-1278 | A selection keeps the ledger if and only if the last state it tries to apply fails, so that none is selected, or the driver accepts every setting of that state that names a pin |
| PinctrlAnswers.BooksOverRuns | drivers/pinctrl/core.c:1153-1322 | Over every run under any driver whatever, a pin is free or counts its occurrences in its owner's selected state, and settings are held whole or not at all |
| PinExclusivity.StepKeepsExclusive | drivers/pinctrl/pinmux.c:124-183 | Every operation keeps at most one holder per pin and one module reference per held pin |
| PinExclusivity.ExclusiveOverRuns | drivers/pinctrl/pinctrl-rts3917.c:1657-1708 | Over every run on rts3917 a pin's mask bit is set if and only if exactly one of mux and GPIO holds it, never both, and references equal set bits, overlapping groups or not |
| PinExclusivity.GpioGrantedIffFree | drivers/pinctrl/pinmux.c:139-170 | On rts3917 a GPIO request is granted if and only if nobody holds the pin, and then the GPIO owns it and the bit is set |
| PinExclusivity.MuxGrantedIffFree | drivers/pinctrl/pinmux.c:130-170 | On rts3917 a mux request is granted if and only if nobody else holds the pin, and then it is counted for the device |
| PinExclusivity.ApplySucceeds | drivers/pinctrl/pinctrl-rts3917.c:1365-1588 | On rts3917 a state whose pins nobody holds applies from start to end |
| PinExclusivity.FailedSelectIsNoop | drivers/pinctrl/core.c:1286-1309 | On rts3917 a failing selection leaves the selected state, every pin record, mask bit and reference as before |
| Rts3917.RtsPinctrl.PmxRequest | drivers/pinctrl/pinctrl-rts3917.c:1657-1676 | The bit in the right one of the two words is set if it was clear and the offset is at most 119, and nothing else changes |
| Rts3917.RtsPinctrl.PmxFree | drivers/pinctrl/pinctrl-rts3917.c:1678-1698 | The bit is cleared if it was set and the offset is at most 119, and nothing else changes |
| PinctrlDev.Device.RequestPin | drivers/pinctrl/pinmux.c:105-191 | The in-place request has the effect and status the ledger proofs are about |
| PinctrlDev.Device.FreePin | drivers/pinctrl/pinmux.c:204-250 | The in-place free, including the count check and the driver callback |
| PinctrlDev.Device.Enable | drivers/pinctrl/pinmux.c:401-480 | The acquire loop, the marking loops, set_mux and the backwards release loop together |
| PinctrlDev.Device.Disable | drivers/pinctrl/pinmux.c:482-530 | The loop that frees pins still carrying the setting |
| PinctrlDev.Pinctrl.CommitState | drivers/pinctrl/core.c:1237-1310 | The commit with rollback and recursive re-selection, in place |
| PinctrlDev.Pinctrl.SelectState | drivers/pinctrl/core.c:1316-1322 | Selecting the current state does nothing; otherwise it commits |
| PinctrlDev.Pinctrl.Free | drivers/pinctrl/core.c:1153-1175 | Walking all states of a handle disables the settings of the current one only |
| GpioArray.GetArray | drivers/gpio/gpiolib.c:4784-4869 | The masks fit the descriptor array if and only if the candidate was not abandoned, which happens exactly when the first line out of place belongs to the fast chip; the masks are given bit by bit in both cases |
| GpioArray.MasksFitIff | drivers/gpio/gpiolib.c:4833-4866 | Masks made from all lines fit; masks left from the point where the candidate was dropped do not |
| GpioArray.WrittenAllIsWriteEach | drivers/gpio/gpiolib.c:3716-3726 | For distinct lines, anything that wrote every line once did what one single-line call per index in order does |
| GpioBulk.FastPathWrites | drivers/gpio/gpiolib.c:3603-3609 | The bulk call on the fast chip writes exactly the lines of the set mask, each as a single-line call would |
| GpioBulk.FittingBulkWrite | drivers/gpio/gpiolib.c:3583-3685 | With masks that fit, the bulk call plus single calls for the leftover lines equals one single call per index |
| GpioBulk.BulkWriteIffNotDropped | drivers/gpio/gpiolib.c:4784-4869 | End to end: for distinct lines, the bulk write through the masks gpiod_get_array leaves equals single calls for all values if and only if the candidate was not dropped |
| GpioBulk.DroppedIndexIsDriven | drivers/gpio/gpiolib.c:4848-4850 | Through dropped masks the bulk write drives the fast chip's line of the dropped index with that index's value, whoever owns the line |
| GpioBulk.DroppedMasksMisdirect | drivers/gpio/gpiolib.c:4848-4850 | For lines 0 and 2 of a chip, the masks gpiod_get_array leaves make the bulk write drive line 1 |
| GpioBulk.BulkReadIffNotDropped | drivers/gpio/gpiolib.c:4784-4869 | End to end: for distinct lines, the bulk read through the masks gpiod_get_array leaves gives what single reads give in every state of the lines if and only if the candidate was not dropped |
| GpioBulk.DroppedReadDiffers | drivers/gpio/gpiolib.c:4848-4850 | Where the candidate was dropped, the bulk read follows a line that a single read of that index does not look at |
| GpioBulk.PushWrites | drivers/gpio/gpiolib.c:3676-3678 | Pushing the collected bits writes exactly the pending lines of the chip |
| GpioBulk.Bus.SetMultiple | drivers/gpio/gpiolib.c:3569-3581 | Exactly the masked lines of the chip are set, to their bits |
| GpioBulk.Bus.GetMultiple | drivers/gpio/gpiolib.c:3278-3295 | Either every masked bit is the level of its line and every other bit is left alone, or some masked line failed with the error returned |
| GpioBulk.Bus.SetArrayValueComplex | drivers/gpio/gpiolib.c:3583-3685 | With no masks or masks that fit, every line and IS_OUT flag ends as one gpiod_set_value_nocheck (or raw write) per index would leave it, and with others as BulkWrite says; the caller's bitmap is left inverted where the fast path inverted it |
| GpioBulk.Bus.Collect | drivers/gpio/gpiolib.c:3637-3675 | One round of the sweep handles the leftover lines of one chip, open drain and open source at once, the others collected, each index once |
| GpioBulk.Bus.GetArrayValueComplex | drivers/gpio/gpiolib.c:3297-3398 | With no masks or masks that fit: success if and only if every single-line read succeeds, and then every index has that read's value; otherwise the error of one of them. With other masks the same of the lines the masks point at; an index past the chip's last line keeps the caller's bit |
| GpioBulk.Bus.Distribute | drivers/gpio/gpiolib.c:3375-3391 | The second scan gives each leftover index of the round its value and touches no other |
| GpioWire.SingleWriteOnWire | drivers/gpio/gpiolib.c:3506-3567 | A single write leaves on the wire what the value means for the line: an open-drain output never drives high and an open-source output never drives low but lets go; and when a line becomes an output |
| GpioWire.ArrayOnWire | drivers/gpio/gpiolib.c:3583-3685 | So for every line of an array write, and no other line changes |
| GpioWire.SingleReadOfWire | drivers/gpio/gpiolib.c:3262-3276 | A read reports the level of the wire, inverted for an active-low line unless raw |
| GpioWire.ReadBack | drivers/gpio/gpiolib.c:3297-3685 | What an array write puts on wires with the usual pulls is what an array read then gives |
| GpioNumbers.NumberRoundTrip | drivers/gpio/gpiolib.c:108-129 | Looking up a line's number gives the line |
| GpioNumbers.LineRoundTrip | drivers/gpio/gpiolib.c:163-166 | A number found is base plus offset of the line found, a number not found is that of no line |
| GpioNumbers.Registry.FindLine | drivers/gpio/gpiolib.c:108-129 | The list walk finds the line the round trips are about |
| GpioNumbers.Registry.FindBase | drivers/gpio/gpiolib.c:183-204 | The highest free base, and an error only when there is no free range |
| GpioNumbers.Registry.AddToList | drivers/gpio/gpiolib.c:255-294 | -EBUSY if and only if the range overlaps one present; otherwise inserted with the list still sorted and disjoint |
| GpioNumbers.Registry.AddChip | drivers/gpio/gpiolib.c:1350-1377 | A chip with a dynamic base is registered at the highest free base, if and only if a free range exists, and is never refused as busy; a fixed base is taken as given or refused as overlapping |
| DwSpi.TxMaxNeverWraps | drivers/spi/spi-dw.c:153-180 | tx_max is the least of words left, FIFO room and credit, with no unsigned wrap; rx_max is the RX FIFO level |
| DwSpi.StepKeeps | drivers/spi/spi-dw.c:182-222 | Every step of writer, reader or device keeps sent minus received equal to the words in flight and at most fifo_len |
| DwSpi.SafeOverRuns | drivers/spi/spi-dw.c:153-222 | Over every interleaving no FIFO overruns or underruns and the words are in order |
| DwSpi.CompletedRunDelivers | drivers/spi/spi-dw.c:233-258 | When the receive cursor reaches the end, the caller's words (or zeros without a buffer) were sent in order, nothing is in flight and each word of the buffer is the device's answer to what was sent up to it; this needs a length of whole words |
| DwSpi.NeverStuck | drivers/spi/spi-dw.c:291-300 | An unfinished transfer always has a word to write, shift or read |
| DwSpiDriver.Spi.Writer | drivers/spi/spi-dw.c:182-201 | The writer loop is a run of the machine, with the device moving between any two writes, and writes exactly the words tx_max allows |
| DwSpiDriver.Spi.Reader | drivers/spi/spi-dw.c:203-222 | The reader loop likewise, and reads exactly the words rx_max finds |
| DwSpiDriver.Spi.Interrupt | drivers/spi/spi-dw.c:233-258 | The error branch is never taken; everything received is read; unless that finished the transfer, an empty TX FIFO is filled as far as tx_max allows |
| DwSpiDriver.Spi.Poll | drivers/spi/spi-dw.c:291-300 | Polling terminates with all answers in the buffer |
| DwSpiDriver.Spi.constructor | drivers/spi/spi-dw.c:313-319 | The set-up establishes the invariant |
| RtcTimers.EnqueueKeeps | drivers/rtc/interface.c:791-831 | Enqueueing keeps the queue sorted and the alarm early enough, and the timer is queued if and only if the call succeeds |
| RtcTimers.UndoAdd | drivers/rtc/interface.c:823-828 | When the alarm cannot be programmed the timer is taken back without a trace |
| RtcTimers.RemoveKeeps | drivers/rtc/interface.c:854-878 | Removing a timer keeps the invariant, even if the next alarm cannot be programmed |
| RtcTimers.StartKeeps | drivers/rtc/interface.c:982-998 | Starting, or restarting, a timer keeps the invariant |
| RtcTimers.SetUserAlarmKeeps | drivers/rtc/interface.c:448-479 | So does setting the alarm |
| RtcTimers.UpdateIrqKeeps | drivers/rtc/interface.c:546-594 | So does switching update interrupts, even on a failed clock reading |
| RtcTimers.WriteClockKeeps | drivers/rtc/interface.c:149-162 | So does the section of rtc_set_time under the lock, which leaves the work to be scheduled |
| RtcTimers.ScheduleKeeps | drivers/rtc/interface.c:164-165 | So does scheduling it after the lock is given up |
| RtcTimers.SetTimeKeeps | drivers/rtc/interface.c:126-175 | So does a call of rtc_set_time that nobody gets in between, to any time, with the wait for the lock broken off or not |
| RtcTimers.StartEffect | drivers/rtc/interface.c:982-998 | Starting a timer sets exactly its time and period, turns it on if and only if the call succeeds, and touches no other timer |
| RtcTimers.CancelEffect | drivers/rtc/interface.c:1006-1012 | Cancelling turns exactly this timer off |
| RtcTimers.SetUserAlarmEffect | drivers/rtc/interface.c:465-475 | Setting the alarm makes the alarm timer one shot at the time given, on if asked for and successful |
| RtcTimers.UpdateIrqEffect | drivers/rtc/interface.c:546-594 | Update interrupts come every second from one second after the clock as read, or are off; or nothing changes |
| RtcTimers.WriteClockEffect | drivers/rtc/interface.c:149-162 | The clock shows the time given if the driver takes it; timers are not touched |
| RtcTimers.SetTimeEffect | drivers/rtc/interface.c:126-175 | With a driver that works at once, the clock shows the time given, the work is scheduled and update interrupts that were on run on from then |
| RtcTimers.EnqueueArmsIffEarliest | drivers/rtc/interface.c:800-828 | Enqueueing programs the alarm, for the new timer, if and only if no timer on the queue that is not expired goes off earlier or at the same time |
| RtcTimers.RemoveRearms | drivers/rtc/interface.c:854-878 | Removing the next timer programs the alarm for the one after it, or turns it off; removing another leaves it alone |
| RtcWork.SweepCatchesUp | drivers/rtc/interface.c:902-925 | In one sweep a queued timer fires at exactly its times up to now and is left at its first time after now, a one-shot timer disabled; others do not fire |
| RtcWork.FiringCount | drivers/rtc/interface.c:917-924 | A periodic timer due since e fires (now - e) / p + 1 times |
| RtcWork.FiringTime | drivers/rtc/interface.c:917-924 | Its k-th firing is at e + k * p, not after now |
| RtcWork.CaughtUp | drivers/rtc/interface.c:917-924 | The time it is requeued at is the least e + k * p after now |
| RtcWork.SweepInOrder | drivers/rtc/interface.c:902-925 | Firings come in non-decreasing order of expiry, none after now |
| RtcWork.WorkEnds | drivers/rtc/interface.c:890-953 | After finitely many failures of whatever kind, the work ends with the queue in order and the alarm set for its head, or an empty queue and no alarm |
| RtcWork.WorkKeeps | drivers/rtc/interface.c:926-947 | That alarm is in the future, or the work is scheduled again, whenever the offset is not negative, or no time passes after a failed call, or only the first second shown needs conversion |
| RtcWork.WorkKeepsIffOffset | drivers/rtc/interface.c:435-436 | The work ends so from every state whose clock and queued times the device can show, and for every driver, if and only if the offset is not negative or the hardware range starts one second after the window |
| RtcWork.LateRetryLosesAlarm | drivers/rtc/interface.c:936-941 | With a negative offset, for every alarm before the hardware range: one failure and one second later the retry programs an alarm already past; the timer stays queued, and however long one waits no work is scheduled |
| RtcWork.LostWakeupIsReached | drivers/rtc/interface.c:936-941 | A registered device whose offset is negative and whose range starts later than that comes into this situation by setting the alarm, setting the clock back and running the work |
| RtcWork.CallsBounded | drivers/rtc/interface.c:890-953 | With an offset of at most 0, a readable clock and no -ETIME from the driver itself, the work makes at most five driver calls per timer queued or fired, and five more |
| RtcWork.FailuresAreEndless | drivers/rtc/interface.c:936-949 | With a positive offset and a converted alarm, any number of failures to program it changes nothing: the work goes on with the same queue |
| RtcWork.WorkBoundedIffOffset | drivers/rtc/interface.c:890-953 | For a readable clock and no -ETIME from the driver itself, the driver calls are bounded by a multiple of the timers queued and fired if and only if the offset is not positive |
| RtcWork.LateAnswersAreEndless | drivers/rtc/interface.c:936-938 | A driver that answers -ETIME from set_alarm keeps the work going, whatever the offset |
| RtcWork.BlindSweepsAreEndless | drivers/rtc/interface.c:900-906 | So does a clock that fails to be read for the sweep and not for the check of the alarm |
| RtcWork.GivenUp | drivers/rtc/interface.c:936-949 | An alarm that needs no conversion is given up after four failed attempts, -ETIME not counted, unless it passes meanwhile |
| RtcWork.NeverGivenUp | drivers/rtc/interface.c:936-941 | With a positive offset a converted alarm is never given up as long as the clock can be read |
| RtcWork.NoLostWakeup | drivers/rtc/interface.c:126-1012 | Over every run of any callers, lock section by lock section, in which the work's retries are safe (always so if the offset is not negative): the queue is sorted, enabled means queued, and the queue is empty, or the work is scheduled or about to be, or the alarm is armed for the future and no later than the head |
| RtcWork.DueTimerIsServed | drivers/rtc/interface.c:672-680 | In every reachable state, once the clock reaches a queued timer's expiry the work is scheduled or about to be, and running it fires the timer provided its first reading of the clock succeeds |
| RtcSchedule.WorkCatchesUp | drivers/rtc/interface.c:890-953 | Unless programming fails, the work fires every timer at exactly its times up to a reading of the clock within the work, however often it starts over, and leaves it at the next |
| RtcSchedule.StartedFiresOnSchedule | drivers/rtc/interface.c:890-1012 | Over every run, a timer started for e with period p fires at e, e + p, e + 2 * p and so on, in order, none left out and none in between, as long as nobody touches it and the driver does not fail in the work |
| RtcSchedule.AlarmIsHeadOverRuns | drivers/rtc/interface.c:791-1012 | Over every run in which the driver does not fail, the hardware alarm is armed for exactly the head of the queue, or off when it is empty, unless the work is scheduled or about to be |
| RtcSchedule.FourAttempts | drivers/rtc/interface.c:930-942 | An alarm that needs no conversion is programmed if one of four attempts works and given up otherwise |
| RtcSchedule.GivesUpTheHead | drivers/rtc/interface.c:943-949 | Giving up turns off the head of the queue alone, and the work goes on with the others |
| RtcDevice.Device.AttemptAlarm | drivers/rtc/interface.c:409-446 | Reads the clock, refuses past alarms, converts the caller's alarm to hardware time, programs the hardware, as one step; an -ETIME of the driver itself reads as a past alarm |
| RtcDevice.Device.ProgramWithRetries | drivers/rtc/interface.c:931-942 | Four attempts at most, each on the alarm as the one before left it |
| RtcDevice.Device.TimerEnqueue | drivers/rtc/interface.c:791-831 | The in-place enqueue with its skip loop over expired timers |
| RtcDevice.Device.TimerRemove | drivers/rtc/interface.c:854-878 | The in-place removal |
| RtcDevice.Device.TimerStart | drivers/rtc/interface.c:982-998 | Remove if enabled, set up, enqueue |
| RtcDevice.Device.TimerCancel | drivers/rtc/interface.c:1006-1012 | Remove if enabled |
| RtcDevice.Device.SetAlarmTime | drivers/rtc/interface.c:465-475 | The alarm timer is replaced and queued if asked |
| RtcDevice.Device.UpdateIrqEnable | drivers/rtc/interface.c:546-594 | The update timer is started one second after the reading, or removed |
| RtcDevice.Device.WriteClockTime | drivers/rtc/interface.c:149-162 | The section of rtc_set_time under the lock |
| RtcDevice.Device.SetClockTime | drivers/rtc/interface.c:126-175 | Update interrupts off, clock set, work scheduled, update interrupts on again |
| RtcDevice.Device.TimerWork | drivers/rtc/interface.c:890-953 | The sweep, the three retries on the converted alarm, the drop and both jumps back, in place; terminating after finitely many failures |
| RtcRange.Range.GetOffset | drivers/rtc/class.c:208-273 | The offset it sets maps the hardware range one to one onto the window rtc_valid_range accepts, with setting the inverse of reading, for every placement of the window |
| RtcRange.ExpansionIsBijection | drivers/rtc/interface.c:23-82 | Adding the offset maps the hardware range one to one onto the window rtc_valid_range accepts, and subtracting is its inverse |
| RtcRange.ToHardwareTwice | drivers/rtc/interface.c:46-65 | Converting a shown time to hardware time twice is converting it once |
| RtcRange.ReadInjective | drivers/rtc/interface.c:23-44 | No two hardware times are shown alike |
| RtcRange.ShownClockTicks | drivers/rtc/interface.c:23-44 | The clock shown advances second by second with the hardware clock and starts over only at the end of its window |
| RtcRange.SharedTimesUnchanged | drivers/rtc/interface.c:32-39 | Times that hardware and window share are shown as they are; with none to share, the first seconds correspond |
| RtcRollover.RollMonth | drivers/rtc/interface.c:349-361 | The first later month that has the day, within two steps |
| RtcRollover.PassedYearIff | drivers/rtc/interface.c:358-359 | If rtc_month_days expects a calendar year, the year passed to it gives the right number of days except exactly in February of years that are 0 or 300 modulo 400 |
| RtcRollover.RollYear | drivers/rtc/interface.c:364-370 | The first later year in which the date exists, within eight steps |
| RtcRollover.LeapWithinEight | include/linux/rtc.h:213-216 | Among any eight years in a row one is a leap year |
| RtcRollover.DayRollover | drivers/rtc/interface.c:338-342 | A day later is after now if and only if month and year are the clock's |
| RtcRollover.NextDayIsNext | drivers/rtc/interface.c:338-342 | A day later is the first later time at the same time of day |
| RtcRollover.FillEffect | drivers/rtc/interface.c:296-320 | Fields the hardware has are kept, the others are the clock's, and the rollover is that of the finest date field left open |
| RtcRollover.MonthRollover | drivers/rtc/interface.c:349-361 | The next month with that day is after now if and only if the year is the clock's |
| RtcRollover.StaysBehind | drivers/rtc/interface.c:338-342 | On 10 March, an alarm with January given and the day open rolls over to 11 January, which is past |
| RtcRollover.Resolve | drivers/rtc/interface.c:296-376 | Open fields are filled from the clock; the result is the filled alarm, or a day later, or in the first later month or year that has the date, and is after now if and only if the filled alarm was or the fields coarser than the missing one agree with the clock |
| RtsThermal.FindSegment | drivers/thermal/rts_thermal.c:127-132 | The search loop stays inside the table and finds the segment |
| RtsThermal.TempToCode | drivers/thermal/rts_thermal.c:121-144 | temp2code as code |
| RtsThermal.CodeToTemp | drivers/thermal/rts_thermal.c:146-177 | code2temp as code |
| RtsThermal.InterpolateExact | drivers/thermal/rts_thermal.c:127-142 | The interpolated value lies on the line through the two table entries around the input, rounded toward the lower entry, also below and above the table |
| RtsThermal.Code2TempExact | drivers/thermal/rts_thermal.c:146-177 | code2temp gives the temperature on that line for the sensor value of the code, as an unsigned number |
| RtsThermal.Code2TempAtEntry | drivers/thermal/rts_thermal.c:166-174 | At a calibration point code2temp gives the true temperature of the point |
| RtsThermal.Temp2CodeExact | drivers/thermal/rts_thermal.c:121-144 | temp2code gives the whole hundreds of the sensor value on that line, counted from 27315, times 1024 |
| RtsThermal.Temp2CodeAtEntry | drivers/thermal/rts_thermal.c:134-142 | A table entry has the code of its calibration value |
| RtsThermal.BackLosesLittle | drivers/thermal/rts_thermal.c:166-174 | Interpolating back loses less than one unit |
| RtsThermal.InterpolateMonotone | drivers/thermal/rts_thermal.c:166-174 | Interpolation is monotone from the first calibration point on, across segments |
| RtsThermal.ForthAndBack | drivers/thermal/rts_thermal.c:134-174 | Interpolating forth and back never overshoots, whichever segments are found |
| RtsThermal.ProductFits | drivers/thermal/rts_thermal.c:139 | The product stays within a C int for every temperature in or above the table whose sensor value is at most 4000000 |
| RtsThermal.InTableConvertible | drivers/thermal/rts_thermal.c:91-95 | Every temperature in the table is such a temperature |
| RtsThermal.TripPointConvertible | drivers/thermal/rts_thermal.c:254-255 | The 85 degree trip point, above the driver's table, is such a temperature for calibrations up to 2000000 |
| RtsThermal.BackProductFits | drivers/thermal/rts_thermal.c:174 | So does the product in code2temp |
| RtsThermal.Temp2CodeMonotoneIff | drivers/thermal/rts_thermal.c:121-144 | temp2code keeps the order of two temperatures, in the table or above it, if and only if their sensor values do not lie on both sides of 27315 |
| RtsThermal.Temp2CodeOrderBreaks | drivers/thermal/rts_thermal.c:141 | For an uncalibrated sensor -5 degrees has a greater code than 0 degrees |
| RtsThermal.Code2TempMonotone | drivers/thermal/rts_thermal.c:146-177 | code2temp is monotone on codes of either sign wherever the sensor value is at or above the first calibration point |
| RtsThermal.DecodeInOrder | drivers/thermal/rts_thermal.c:153-159 | 19-bit codes decode in the order of the signed numbers they stand for |
| RtsThermal.RoundTripIff | drivers/thermal/rts_thermal.c:121-177 | For sensor values of at least 27315 the temperature converted back is at most the original if and only if bit 18 of the code stays clear, or the value the code then reads as is not below the calibration, or is below it by too little to make the temperature negative |
| RtsThermal.BelowIff | drivers/thermal/rts_thermal.c:166-174 | Below the calibration the temperature is negative exactly when one product of table differences reaches another |
| RtsThermal.RoundTrip | drivers/thermal/rts_thermal.c:121-177 | It is at most the original whenever the sensor value lies in [27315, 52915), and falls short by less than a hundredth of a kelvin plus one hundred sensor units |
| RtsThermal.RoundTripBreaks | drivers/thermal/rts_thermal.c:153-156 | A calibration for which 80 degrees comes back as an enormous temperature |
| CoolingStats.StepConserves | drivers/thermal/thermal_sysfs.c:758-788 | A state change, a reading and a reset keep the conservation laws |
| CoolingStats.ConservedOverRuns | drivers/thermal/thermal_sysfs.c:758-846 | Over every run total_trans is the sum of the table, arrivals minus departures of a state are [current] minus [starting], and times add up to the time since set-up or reset |
| CoolingStats.StepRecorded | drivers/thermal/thermal_sysfs.c:758-788 | Each operation credits the state being left, counts the change made, and nothing else |
| CoolingStats.RecordedOverRuns | drivers/thermal/thermal_sysfs.c:758-846 | Over every run the time of a state is the time spent in it, the entry of two states the number of changes from one to the other, and the count the number of changes, since set-up or reset |
| CoolingStats.CoolingDevice.ChangeState | drivers/thermal/thermal_sysfs.c:768-788 | The update on the flat table, in place |
| CoolingStats.CoolingDevice.UpdateTime | drivers/thermal/thermal_sysfs.c:758-766 | The time since the last update goes to the current state |
| CoolingStats.CoolingDevice.ResetStats | drivers/thermal/thermal_sysfs.c:826-846 | Everything zero but the current state |
| CoolingStats.CoolingDevice.constructor | drivers/thermal/thermal_sysfs.c:910-935 | The set-up establishes the laws |
| Eeprom.MaskIsMod | drivers/i2c/i2c-slave-eeprom.c:156-157 | Masking with size - 1 is the remainder by the size, for every power of two |
| Eeprom.CallbackRefines | drivers/i2c/i2c-slave-eeprom.c:45-92 | Event by event the callback does what a byte array with a wrapping cursor does; accesses stay in the buffer and the 16-bit wrap is invisible |
| Eeprom.RunRefines | drivers/i2c/i2c-slave-eeprom.c:45-92 | So over every event sequence, contents and bytes on the bus alike |
| Eeprom.WriteStores | drivers/i2c/i2c-slave-eeprom.c:52-65 | A write transfer of up to size bytes stores them from the address on, wrapping, and changes no other byte |
| Eeprom.WriteThenRead | drivers/i2c/i2c-slave-eeprom.c:52-82 | Addressing again and reading as many bytes gives them back |
| Eeprom.ReadOnlyNeverChanges | drivers/i2c/i2c-slave-eeprom.c:60 | No event sequence changes a read-only part |
| Eeprom.ChipStores | drivers/i2c/i2c-slave-eeprom.c:45-92 | The same of the callback's run: a write transfer stores the bytes in the buffer and changes no other |
| Eeprom.ChipWriteThenRead | drivers/i2c/i2c-slave-eeprom.c:45-92 | The same of the callback's run: the bytes read from the bus are the bytes written to it |
| Eeprom.ReadOnlyChip | drivers/i2c/i2c-slave-eeprom.c:45-92 | The same of the callback's run: a read-only buffer never changes |
| Eeprom.ChipAddressStopRead | drivers/i2c/i2c-slave-eeprom.c:84-87 | Addressing, a stop and a read in a transfer of its own give the bytes from the address on |
| Eeprom.ChipWriteThenReadOn | drivers/i2c/i2c-slave-eeprom.c:45-92 | After a write transfer, a read without an address goes on behind the block |
| Eeprom.ReadOnlyIgnores | drivers/i2c/i2c-slave-eeprom.c:60 | Data sent to a read-only part changes nothing, not even the position |
| Eeprom.Device.Callback | drivers/i2c/i2c-slave-eeprom.c:45-92 | The callback in place |
| Eeprom.Device.constructor | drivers/i2c/i2c-slave-eeprom.c:144-164 | Size, mask and address bytes as the probe sets them, contents all ones |
| PwmNumbers.AddKeeps | drivers/pwm/core.c:278-297 | Filling in a free range keeps bitmap, tree and chips consistent |
| PwmNumbers.RemoveKeeps | drivers/pwm/core.c:60-74 | Taking a chip's range out keeps them consistent and removes exactly its devices |
| PwmNumbers.Core.FindArea | drivers/pwm/core.c:48-49 | The lowest free run from a position on, or past the end when there is none |
| PwmNumbers.Core.Alloc | drivers/pwm/core.c:37-58 | A fixed base succeeds if and only if its range is free and in bounds; a dynamic base is the lowest free run |
| PwmNumbers.Core.Add | drivers/pwm/core.c:251-313 | Bit set if and only if on the tree, every device belongs to one listed chip under base plus channel; success exactly when a range exists |
| PwmNumbers.Core.Remove | drivers/pwm/core.c:336-367 | Busy if and only if a channel is requested; otherwise exactly the chip's numbers become free |

## Left out

- sysfs, character devices, debugfs, device tree and ACPI parsing, tracing and logging: plumbing around the cores.
- Allocation failure, sleeping, real lock semantics and reference counts other than the pinmux module references.
- Several pin controllers at once: one controller is modelled, and pin numbers are its own. The pin-config contents
  and the pad-field constants of rts3917 are not modelled; a config setting only succeeds or fails.
- Pinmux counts, cooling counters and GPIO numbers are unbounded integers; their 32-bit overflow is not modelled.
- A state selection is one step. pinctrl_commit_state takes no lock over it, so runs in which selections of different devices overlap are not covered.
- PinctrlSystem.LedgerOverRuns: for states with disjoint mux groups and drivers that answer 0 or a negative error, because it is false otherwise (see the exact conditions above).
- PinctrlAnswers.BooksOverRuns: for states with disjoint mux groups; settings of different devices are different objects, so their addresses differ.
- PinExclusivity.ExclusiveOverRuns: GPIO frees are only for pins a GPIO holds, as callers must ensure.
- PinExclusivity.FailedSelectIsNoop: the module stays loaded and the old state's pin configuration can be applied again, because otherwise re-selecting fails and no state is selected.
- GpioBulk.Bus.SetArrayValueComplex: arrays that name a line twice, and array sizes below that of the array info, because the bulk form then differs from single calls. The address comparisons that tie the info to the array are represented by the info being present.
- GpioBulk.Bus.SetMultiple: a chip's own set_multiple is taken to act line by line, because what else a driver does there is not visible here.
- GpioBulk.Bus.GetMultiple: a chip's own get_multiple is taken to act line by line, for the same reason.
- GpioBulk.BulkReadIffNotDropped: every line must be able to read as low and as high, because otherwise two lines can never be told apart; a chip's lines are numbered without gaps.
- GpioBulk.BulkWriteIffNotDropped: driving a line high and low must make a difference to its state, because otherwise any two writes are equal; a chip's lines are numbered without gaps.
- SPI DMA, chip select, transmit-only and receive-only modes; the byte order of 16-bit words in the caller's buffers.
- DwSpiDriver.Spi.Poll: the device takes at least one step per round if it can, because polling a dead device never ends.
- RTC times are whole seconds, and a queued time is one that the hardware can hold: programming it sets the alarm for exactly that shown time. rtc_initialize_alarm, rtc_alarm_irq_enable (which switches the interrupt off under other timers), periodic interrupts and emulated update interrupts are left out.
- A failing set_alarm leaves the hardware alarm as it was, an alarm goes off when the clock crosses it and not when it is armed late, and timer periods are not negative.
- RtcWork.NoLostWakeup: for devices with a negative offset only when no time passes between a failed call and the next, or only the first second shown needs conversion, because it is false otherwise (see the exact condition above).
- RtcWork.WorkEnds: the failures of a run are a finite list of any length, because with a positive offset the work does not end while they last (`RtcWork.FailuresAreEndless`).
- RtcSchedule.StartedFiresOnSchedule: for runs in which the driver does not fail during the work, because a timer can be given up or fire on an unreadable clock otherwise.
- RtcWork.CallsBounded: for clocks that can be read and drivers that do not answer -ETIME themselves, because it is false otherwise.
- RtcRollover.RollMonth: the source passes tm_year to rtc_month_days, of which only the declaration is here, and adds 1900 for the leap test of the year loop. The model counts the days of the calendar year in both places; `RtcRollover.PassedYearIff` says where the other reading differs, for example the 29th of February 2000 is then skipped.
- RtcWork.DueTimerIsServed: the first reading of the clock must succeed, because a timer can be given up unfired when four readings in a row fail.
- RtcRollover.Resolve: the consistent reading of clock and alarm before it, and the order of times as given by rtc_tm_to_time64, are represented by the calendar itself.
- RtcRange.ExpansionIsBijection: non-negative times only, because the source mixes signed and unsigned comparisons otherwise.
- RtsThermal.RoundTripIff: calibration tables and sensor values up to 4000000, so that no product leaves 32 bits. The interrupt handler, thermal binding and governors are left out.
- Statistics assume new states below max_states, as the table has no room for others.
- irqchip, clocksource, watchdog, hwmon, serial, USB and u-boot code.
