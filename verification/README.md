# Nios II HAL services and USB host stack: a verified model

This project models the stateful core of the board software in Dafny 4.11 and proves what it promises. The HAL
sources appear twice in the repository with the same text; the copy of the NIOS Accumulator is the one cited.

| part | modules |
|---|---|
| alarm scheduler: wrapping tick counter, one-bit rollover flag, list edited during its own walk | `AlarmSpec`, `AltAlarm`, `AlarmRefinement`, `AlarmCallbacks` |
| the two printf engines | `Digits`, `Bits`, `PrintfSpec`, `Printf`, `PrintfTheorems`, `PrintfFormats`, `PrintfLetters`, `PrintfLockStep` |
| file-descriptor pool with exclusive locks | `FdSpec`, `AltFd`, `FdTheorems`, `FdServices` |
| USB packets: dispatch with two retry budgets, IN reassembly, control staging, data toggles | `UsbSpec`, `Usb`, `UsbTheorems`, `UsbReads`, `UsbLimits`, `UsbToggles` |
| HID probes: byte walk over the configuration descriptor | `Hid`, `HidTheorems` |
| enumeration state machine, bus interrupts and main loop | `EnumSpec`, `UsbEnum`, `EnumTheorems`, `EnumProgress`, `EnumEvents` |
| time of day | `TimeOfDay` |
| profiler: slab allocator over sbrk, call-graph lists in memory words | `GmonSpec`, `GmonHeap`, `GmonLists`, `AltGmon` |
| interrupt registration and drain loop | `Irq`, `IrqTheorems` |

Code that changes state in place is a class or a method with the source's loops, proved against a function on
values (the `...Spec` modules); the theorems are about those functions, so they hold of the code. Machine words
are written out: 32-bit counters and products wrap explicitly, packet sizes are bytes, lengths 16-bit words.
The environment is a parameter and never restricted more than the source needs: the USB device is any sequence
of replies, the bus any sequence of samples, callbacks and drivers answer anything, interrupts arrive at any pass.

Where the code does not keep what it is meant to keep, the code is modelled as it is, one lemma shows it on an input
and another gives the exact condition:

- `alt_alarm_start` with the longest delay is early unless started on the last tick of an epoch
  (`AlarmRefinement.FiresTooEarly`, `AlarmRefinement.StartIsExactIff`). Starting a listed alarm again traps the walk
  (`AltAlarm.AlarmSystem.Start`, `AltAlarm.TrappedForEver`), and so does a callback that stops the next alarm
  (`AlarmCallbacks.StoppedNextStrands`, `AlarmCallbacks.TickSafeIff`).
- `alt_fd_lock` never looks at slot `alt_max_fd` (`FdTheorems.LockCanMissTheLastSlot`, `FdTheorems.LockIsExclusiveIff`).
  Its documentation says that closing releases a lock; for descriptors 0 to 2 it does not
  (`FdTheorems.ClosedStandardStaysLocked`, `FdTheorems.CloseUnlocksIff`).
- `alt_settod` multiplies in 32 bits, `alt_gettod` in 64 (`TimeOfDay.SetIsOff`, `TimeOfDay.SetGetExactIff`).
- A control read without a buffer ends in the wrong handshake (`UsbTheorems.ReadWithoutBuffer`,
  `UsbTheorems.StatusConformsIff`).
- The byte count of a transfer is a 16-bit word: a long request, or one on an endpoint of packet size 0, need not end
  (the streams in `UsbLimits.Endless`, `UsbLimits.TransferEndsIff`). A device that keeps to its packet size can send
  more than was asked for (`UsbLimits.RoundedReached`, `UsbLimits.DataFitsIff`). A poll that needs more than one packet
  can lose toggle synchronisation (`UsbToggles.StallAfterOne`, `UsbToggles.PollKeepsStepIff`), and so can a request that
  resets the device toggle (`UsbToggles.ResetAtData1`, `UsbToggles.TogglesStayInStepIff`).
- A descriptor of length 0 holds the HID walk for ever (`HidTheorems.ZeroLengthHangs`, `HidTheorems.NeverEndsIff`).
- An SE1 sample or an untimely bus event breaks the enumeration invariant (`EnumTheorems.RunLeaksAddress`,
  `EnumTheorems.RunLosesItself`, `EnumTheorems.RunIsSafeIff`).
- `mcount_allocate` does not look at what `sbrk` answers (`GmonHeap.FirstEntryRefused`, `GmonHeap.StepKeepsIff`).

`dafny verify dfyconfig.toml` checks the whole project.

## Model

| member | source | states |
|---|---|---|
| `AltAlarm.LlistInsert` | NIOS Accumulator/software/lab61_app_bsp/HAL/inc/sys/alt_llist.h:90-98 | the circular doubly linked list stays well linked both ways and has the new node first; a node that was listed already ties the front of the list into a ring |
| `AltAlarm.LlistRemove` | NIOS Accumulator/software/lab61_app_bsp/HAL/inc/sys/alt_llist.h:105-117 | the list stays well linked, loses exactly that node, and the node points to itself; removing a node that is in no list changes nothing |
| `AltAlarm.AlarmSystem.Start` | NIOS Accumulator/software/lab61_app_bsp/HAL/src/alt_alarm_start.c:64-112 | no clock and no alarm are refused without a change; an unlisted alarm is listed first, with the 32-bit due time and flag that the refinement is proved of; a listed one traps every later walk |
| `AltAlarm.AlarmSystem.Stop` | NIOS Accumulator/software/lab61_app_bsp/HAL/src/alt_tick.c:66-73 | a listed alarm leaves the list, all others keep their order; an unlisted one changes nothing |
| `AltAlarm.TrappedForEver` | NIOS Accumulator/software/lab61_app_bsp/HAL/inc/sys/alt_llist.h:90-98 | after a second start of a listed alarm the walk never reaches the list head, however far it goes |
| `AlarmCallbacks.CallbackSafeIff` | NIOS Accumulator/software/lab61_app_bsp/HAL/src/alt_tick.c:102-140 | a callback that starts unlisted alarms and stops any alarms leaves the walk to visit exactly the alarms behind that were not stopped, once and in order, and none that was started, if and only if it did not stop the very next one |
| `AlarmCallbacks.TickSafeIff` | NIOS Accumulator/software/lab61_app_bsp/HAL/src/alt_tick.c:97-141 | a whole tick in which every callback starts unlisted alarms and stops any alarms: the walk meets exactly the alarms expected and ends, if and only if no callback stops the alarm right behind its own |
| `AlarmCallbacks.ExpectedMeans` | NIOS Accumulator/software/lab61_app_bsp/HAL/src/alt_tick.c:97-141 | these are the alarms present at the start of the tick, each once and in list order, without some that a callback of a visited alarm has stopped; none that was started |
| `AlarmCallbacks.NextIsLink` | NIOS Accumulator/software/lab61_app_bsp/HAL/inc/sys/alt_llist.h:90-117 | in a linked list, and in a node that was taken out, the next field of the node leads where the walk over addresses goes |
| `AlarmCallbacks.ServicesAct` | NIOS Accumulator/software/lab61_app_bsp/HAL/src/alt_alarm_start.c:98 | on the addresses the alarm services are the acts of these results |
| `AlarmCallbacks.StoppedNextStrands` | NIOS Accumulator/software/lab61_app_bsp/HAL/src/alt_tick.c:102-140 | the failing family: from a next alarm that was taken out of the list the walk never reaches the head |
| `AltAlarm.AlarmSystem.Tick` | NIOS Accumulator/software/lab61_app_bsp/HAL/src/alt_tick.c:87-148 | the in-place walk, alarms unlinking themselves from under it, ends, keeps the list well formed, and has the effect and the callbacks of the tick on values |
| `AltAlarm.AlarmSystem.Step` | NIOS Accumulator/software/lab61_app_bsp/HAL/src/alt_tick.c:100-141 | one turn of the walk makes progress and never changes where the whole walk ends, because the next node is read before the callback |
| `AltAlarm.AlarmSystem.Poll` | NIOS Accumulator/software/lab61_app_bsp/HAL/src/alt_tick.c:109-139 | the fields of one alarm after its visit: rollover cleared on wrap, callback if due, re-armed or to be stopped |
| `AlarmRefinement.SchedulingIsExact` | NIOS Accumulator/software/lab61_app_bsp/HAL/src/alt_tick.c:87-148 | for every run of starts, stops and ticks, across any number of 2^32 wraps, each event makes exactly the callbacks of a scheduler with unbounded time: never early, late, twice or lost |
| `AlarmRefinement.SchedulingIsExactFromReset` | NIOS Accumulator/software/lab61_app_bsp/HAL/src/alt_tick.c:87-148 | the same from the state at reset, with no assumption on the state |
| `AlarmRefinement.StepRefines` | NIOS Accumulator/software/lab61_app_bsp/HAL/src/alt_tick.c:87-148 | one event keeps the correspondence between the wrapped counter with its rollover flags and the unbounded clock, and makes the ideal callbacks |
| `AlarmRefinement.StartIsExactIff` | NIOS Accumulator/software/lab61_app_bsp/HAL/src/alt_alarm_start.c:78-99 | after a start every legal continuation agrees with the ideal scheduler if and only if the delay is below 2^32 - 1 ticks or the start falls on the last tick of an epoch |
| `AlarmRefinement.FiresTooEarly` | NIOS Accumulator/software/lab61_app_bsp/HAL/src/alt_alarm_start.c:82-96 | the failing family: the delay 2^32 - 1 anywhere else in an epoch goes off on the very next tick |
| `AlarmRefinement.StartArms` | NIOS Accumulator/software/lab61_app_bsp/HAL/src/alt_alarm_start.c:82-96 | due time and rollover flag stand for the unbounded due time if and only if the start is an exact one |
| `AlarmRefinement.RearmArms` | NIOS Accumulator/software/lab61_app_bsp/HAL/src/alt_tick.c:127-137 | re-arming is exact for every interval |
| `AlarmRefinement.VisitOneRefines` | NIOS Accumulator/software/lab61_app_bsp/HAL/src/alt_tick.c:109-139 | an alarm is called back exactly at its unbounded due time, dropped exactly if it answers 0, and else armed for its next one |
| `AlarmRefinement.TickFires` | NIOS Accumulator/software/lab61_app_bsp/HAL/src/alt_tick.c:115-117 | the alarms called back in a tick are exactly those due then, none twice |
| `AlarmRefinement.TickRemovesExactlyTheRetired` | NIOS Accumulator/software/lab61_app_bsp/HAL/src/alt_tick.c:97-141 | a tick leaves the list it found minus exactly the alarms whose callback answered 0, in the same order |
| `Printf.PrintHex` | NIOS Accumulator/software/lab61_app_bsp/HAL/src/alt_printf.c:84-113 | the mask-and-shift loops print the canonical hexadecimal digits of every 32-bit value |
| `Printf.PrintNibbles` | NIOS Accumulator/software/lab61_app_bsp/HAL/src/alt_printf.c:103-112 | masking and shifting from the k-th nibble down prints the k + 1 low-order digits |
| `Bits.MaskedNibble` | NIOS Accumulator/software/lab61_app_bsp/HAL/src/alt_printf.c:100-107 | masking with 0xF shifted up and shifting back is the quotient by a power of 16, modulo 16 |
| `Printf.AltPrintf` | NIOS Accumulator/software/lab61_app_bsp/HAL/src/alt_printf.c:50-132 | output and remaining arguments are those of the format semantics on values, whose letters `PrintfLetters.AltLetterPrints` gives a meaning |
| `Printf.LargestPlace` | NIOS Accumulator/software/lab61_app_bsp/HAL/src/alt_log_printf.c:247-255 | the counting loop yields the number of canonical digits and the largest place value, which never overflows a word |
| `Printf.PrintDigits` | NIOS Accumulator/software/lab61_app_bsp/HAL/src/alt_log_printf.c:281-296 | dividing by falling place values prints the canonical digits, for bases 8, 10 and 16 |
| `Printf.PrintLead` | NIOS Accumulator/software/lab61_app_bsp/HAL/src/alt_log_printf.c:257-279 | sign and fill in the order of the fill style |
| `Printf.PrintInteger` | NIOS Accumulator/software/lab61_app_bsp/HAL/src/alt_log_printf.c:236-300 | the integer branch prints the field the reference semantics describes, the least signed value included |
| `Printf.LogConvert` | NIOS Accumulator/software/lab61_app_bsp/HAL/src/alt_log_printf.c:202-335 | one conversion letter: format, output and arguments consumed, those of the machine on values; what each letter prints is `PrintfLetters.DirectivePrints` |
| `Printf.LogChar` | NIOS Accumulator/software/lab61_app_bsp/HAL/src/alt_log_printf.c:132-338 | one character in each state of the format machine, as the machine on values has it |
| `Printf.AltLogPrintf` | NIOS Accumulator/software/lab61_app_bsp/HAL/src/alt_log_printf.c:114-341 | the character loop has the output and leaves the arguments of the machine on values; what it prints of a format is `PrintfLetters.FormatPrints` |
| `Printf.PrintRepeated` | NIOS Accumulator/software/lab61_app_bsp/HAL/src/alt_log_printf.c:106-110 | prints the character as often as asked, not at all for negative counts |
| `PrintfTheorems.ReadMagnitude` | NIOS Accumulator/software/lab61_app_bsp/HAL/src/alt_log_printf.c:281-296 | printed digits read back as the number in their base, without superfluous zeros |
| `PrintfTheorems.IntegerRoundTrip` | NIOS Accumulator/software/lab61_app_bsp/HAL/src/alt_log_printf.c:238-297 | for every word, base, sign, width, fill and case the printed field reads back as the number |
| `PrintfTheorems.IntegerWidth` | NIOS Accumulator/software/lab61_app_bsp/HAL/src/alt_log_printf.c:257-279 | the field is exactly as wide as the larger of the width asked for and the sign and digits, which end it |
| `PrintfFormats.RunsWidth` | NIOS Accumulator/software/lab61_app_bsp/HAL/src/alt_log_printf.c:170-201 | reading the digits of a width adds up to their decimal value |
| `PrintfFormats.DirectiveRuns` | NIOS Accumulator/software/lab61_app_bsp/HAL/src/alt_log_printf.c:127-340 | one directive, with its flag, width, ignored precision, l and letter, prints its own field, consumes its own argument and leaves the machine between conversions |
| `PrintfFormats.FormatDenotes` | NIOS Accumulator/software/lab61_app_bsp/HAL/src/alt_log_printf.c:127-340 | for every list of directives and fitting arguments the output is the fields joined and the arguments left are those not consumed |
| `PrintfLetters.DirectivePrints` | NIOS Accumulator/software/lab61_app_bsp/HAL/src/alt_log_printf.c:170-335 | letter by letter, for every flag, width and precision: %d and %i read back in base 10 as the two's-complement value, %u in base 10, %o in base 8, %x and %X in base 16 as the word itself, in lower and upper case; %c ends in the character of the low byte, %s in its string; numbers fill the width with zeros or spaces and are shortest otherwise |
| `PrintfLetters.FormatPrints` | NIOS Accumulator/software/lab61_app_bsp/HAL/src/alt_log_printf.c:114-341 | the log engine on a whole format prints one such text for each directive, each of its own argument |
| `PrintfLetters.AltLetterPrints` | NIOS Accumulator/software/lab61_app_bsp/HAL/src/alt_printf.c:60-128 | alt_printf on a letter: %x reads back in base 16 as the word, lower case and shortest, %c is the character of the low byte, %s the string, %% a percent sign, every other letter nothing; then the rest of the format with what is left |
| `PrintfLetters.AltLiteralPrints` | NIOS Accumulator/software/lab61_app_bsp/HAL/src/alt_printf.c:60-68 | every other character is printed as it is |
| `PrintfTheorems.EnginesAgree` | NIOS Accumulator/software/lab61_app_bsp/HAL/src/alt_printf.c:60-128 | for every shared format and fitting arguments both engines print the same characters and consume the same arguments |
| `PrintfTheorems.BareHex` | NIOS Accumulator/software/lab61_app_bsp/HAL/src/alt_log_printf.c:236-300 | a bare %x prints what the other engine prints |
| `PrintfTheorems.EnginesDiffer` | NIOS Accumulator/software/lab61_app_bsp/HAL/src/alt_printf.c:76-125 | outside the shared formats they do differ: %d, %i, %u, %o and %X print nothing in one and a number in the other, for every word |
| `PrintfLockStep.AgreeThroughoutIff` | NIOS Accumulator/software/lab61_app_bsp/HAL/src/alt_printf.c:60-128 | the two engines agree on a format and on all its beginnings, for all arguments that fit both, if and only if it is a shared format that may end in a percent sign, in one with a single modifier, or in that and a percent sign |
| `PrintfLockStep.EnginesPart` | NIOS Accumulator/software/lab61_app_bsp/HAL/src/alt_log_printf.c:127-340 | every other format has a beginning and arguments on which they print differently or consume differently, whatever was printed before |
| `PrintfLockStep.MeetAgain` | NIOS Accumulator/software/lab61_app_bsp/HAL/src/alt_log_printf.c:170-201 | agreement at the end alone is less: on %.5%5 they part and meet again |
| `AltFd.FdTable.GetFd` | NIOS Accumulator/software/lab61_app_bsp/HAL/src/alt_get_fd.c:54-101 | the lowest free descriptor is taken and the high-water mark raised, or EMFILE without a change |
| `AltFd.FdTable.ReleaseFd` | NIOS Accumulator/software/lab61_app_bsp/HAL/src/alt_release_fd.c:44-51 | a descriptor above 2 is cleared, the standard ones are not |
| `AltFd.FdTable.FileLocked` | NIOS Accumulator/software/lab61_app_bsp/HAL/src/alt_open.c:64-92 | the scan, cut short at the high-water mark, finds whether another descriptor holds the device |
| `AltFd.FdTable.Open` | NIOS Accumulator/software/lab61_app_bsp/HAL/src/alt_open.c:105-171 | all outcomes of open with their error codes and the state of the whole pool |
| `AltFd.FdTable.Close` | NIOS Accumulator/software/lab61_app_bsp/HAL/src/alt_close.c:64-101 | the descriptor is given back whatever the driver answers; a negative one is refused |
| `AltFd.FdTable.FdLock` | NIOS Accumulator/software/lab61_app_bsp/HAL/src/alt_fd_lock.c:54-75 | refused exactly if a slot below the high-water mark, but not at it, has the device open too |
| `AltFd.FdTable.FdUnlock` | NIOS Accumulator/software/lab61_app_bsp/HAL/src/alt_fd_unlock.c:52-56 | clears the exclusive flag of that slot and leaves all others as they were |
| `AltFd.FdTable.Ioctl` | NIOS Accumulator/software/lab61_app_bsp/HAL/src/alt_ioctl.c:106-168 | lock and unlock for devices, the driver or ENOTTY for everything else |
| `AltFd.FdTable.OpenFd` | NIOS Accumulator/software/lab61_app_bsp/HAL/src/alt_io_redirect.c:58-72 | open, copy over the standard descriptor, release |
| `AltFd.FdTable.IoRedirect` | NIOS Accumulator/software/lab61_app_bsp/HAL/src/alt_io_redirect.c:85-94 | the three redirections in order |
| `FdTheorems.InitialInv` | NIOS Accumulator/software/lab61_app_bsp/HAL/src/alt_dev.c:118-149 | the pool at reset satisfies the pool invariant and exclusive access |
| `FdTheorems.FailedOpenConserves` | NIOS Accumulator/software/lab61_app_bsp/HAL/src/alt_open.c:130-170 | an open that fails leaves every descriptor exactly as it was |
| `FdTheorems.OpenCloseConserves` | NIOS Accumulator/software/lab61_app_bsp/HAL/src/alt_close.c:64-101 | an open followed by a close leaves every descriptor exactly as it was |
| `FdTheorems.OpenOfLockedDeviceFails` | NIOS Accumulator/software/lab61_app_bsp/HAL/src/alt_open.c:64-92 | while a descriptor holds a device exclusively every open of that device fails and changes no descriptor: the shortened scan misses no lock |
| `FdTheorems.OpenRefusedOnlyWhenLocked` | NIOS Accumulator/software/lab61_app_bsp/HAL/src/alt_open.c:105-171 | an open the driver accepts fails if and only if the name is unknown, the pool is full or the device is locked |
| `FdTheorems.OpenFdConserves` | NIOS Accumulator/software/lab61_app_bsp/HAL/src/alt_io_redirect.c:58-72 | only the standard descriptor changes, to the opened device, and not at all if the open fails |
| `FdTheorems.RedirectConserves` | NIOS Accumulator/software/lab61_app_bsp/HAL/src/alt_io_redirect.c:85-94 | a whole redirection leaves all other descriptors as they were; each standard one is unchanged or refers to its device, opened for its direction |
| `FdTheorems.LockIsExclusiveIff` | NIOS Accumulator/software/lab61_app_bsp/HAL/src/alt_fd_lock.c:61-69 | a lock request keeps exclusive access if and only if it is refused or the slot its scan leaves out is no other descriptor of the device |
| `FdTheorems.LockCanMissTheLastSlot` | NIOS Accumulator/software/lab61_app_bsp/HAL/src/alt_fd_lock.c:61-69 | from reset, with two descriptors on one device, the first is granted exclusive access while the second stays open |
| `FdTheorems.CloseUnlocksIff` | NIOS Accumulator/software/lab61_app_bsp/HAL/src/alt_close.c:64-101 | closing gives a lock up if and only if the descriptor is above 2 |
| `FdTheorems.ClosedStandardStaysLocked` | NIOS Accumulator/software/lab61_app_bsp/HAL/src/alt_close.c:64-101 | from reset, standard output redirected to a device and locked stays locked when it is closed |
| `FdTheorems.StepKeepsInv` | NIOS Accumulator/software/lab61_app_bsp/HAL/src/alt_get_fd.c:77-89 | every service keeps the pool invariant: high-water mark sound, standard descriptors allocated, free slots clean |
| `FdTheorems.StepKeepsExclusiveIff` | NIOS Accumulator/software/lab61_app_bsp/HAL/src/alt_ioctl.c:127-139 | a service keeps exclusive access if and only if it is no lock request that misses the last slot |
| `FdTheorems.RunIsExclusiveIff` | NIOS Accumulator/software/lab61_app_bsp/HAL/src/alt_fd_lock.c:61-69 | over every legal run exclusive access holds throughout if and only if every lock request in it is safe |
| `FdTheorems.RunsAreExclusive` | NIOS Accumulator/software/lab61_app_bsp/HAL/src/alt_open.c:79-87 | at the end of every safe run both invariants hold |
| `FdServices.OpenClaims` | NIOS Accumulator/software/lab61_app_bsp/HAL/src/alt_open.c:105-171 | a successful open changes one slot, the first free one: the device found, the mode without the two status bits, no lock, the device mark; the high-water mark covers it |
| `FdServices.OpenErrors` | NIOS Accumulator/software/lab61_app_bsp/HAL/src/alt_open.c:105-171 | a failing open reports 19, 24, 13 or the answer of the driver, in that order of precedence |
| `FdServices.CloseFrees` | NIOS Accumulator/software/lab61_app_bsp/HAL/src/alt_close.c:64-101 | a close clears that slot alone, unless it is a standard one, and reports the answer of the driver |
| `FdServices.LockMarks` | NIOS Accumulator/software/lab61_app_bsp/HAL/src/alt_fd_lock.c:54-75 | a lock request is refused with 13 if another slot below the high-water mark is on the device, otherwise it marks exactly this slot |
| `FdServices.UnlockClears` | NIOS Accumulator/software/lab61_app_bsp/HAL/src/alt_fd_unlock.c:52-56 | an unlock succeeds and clears the exclusive mark of exactly this slot; its device, mode and private data and all other slots stay |
| `FdServices.OthersAreForwarded` | NIOS Accumulator/software/lab61_app_bsp/HAL/src/alt_ioctl.c:106-168 | any other request, and any on a filesystem, is answered by the driver, or 25 without one; no slot changes |
| `FdServices.UnlockUndoesLock` | NIOS Accumulator/software/lab61_app_bsp/HAL/src/alt_fd_unlock.c:52-56 | a granted lock followed by an unlock leaves the whole pool as it was |
| `FdServices.UnlockedDeviceOpens` | NIOS Accumulator/software/lab61_app_bsp/HAL/src/alt_fd_unlock.c:52-56 | while exclusive access holds, after the unlock every open of the device that the driver accepts succeeds, as long as a slot is free |
| `FdServices.LockShutsOutUntilUnlock` | NIOS Accumulator/software/lab61_app_bsp/HAL/src/alt_fd_lock.c:54-75 | a granted safe lock keeps every open of the device out until the unlock, which lets it in |
| `FdServices.RedirectOpens` | NIOS Accumulator/software/lab61_app_bsp/HAL/src/alt_io_redirect.c:85-94 | each standard channel comes to refer to the device of its name, opened for its direction, whenever nothing stands against it, and stays as it was when something lasting does |
| `Usb.UsbHost.Launch` | Audio Effects Pedalboard/lab_6/usb_host_driver/usb_kb/transfer.c:151-163 | one packet: answered before the deadline or given up at it |
| `Usb.UsbHost.DispatchPkt` | Audio Effects Pedalboard/lab_6/usb_host_driver/usb_kb/transfer.c:142-186 | result, time and packets launched are those of the dispatch on values, for every device |
| `Usb.UsbHost.InTransfer` | Audio Effects Pedalboard/lab_6/usb_host_driver/usb_kb/transfer.c:191-227 | buffer, result, trace and saved toggle of an IN transfer, for every request, packet size and device; the buffer holds the data as far as it goes, and an overrun is reported exactly if more came |
| `Usb.UsbHost.ReceivePackets` | Audio Effects Pedalboard/lab_6/usb_host_driver/usb_kb/transfer.c:199-226 | the packet loop, with its 16-bit count, fills the buffer in place with the packets in order |
| `Usb.UsbHost.CtrlReq` | Audio Effects Pedalboard/lab_6/usb_host_driver/usb_kb/transfer.c:77-136 | stages, result and saved toggle of a control request, for every device, and the buffer, which holds the data received byte for byte; what that data is says `UsbReads.ControlReadReturns` |
| `Usb.UsbHost.ReadDescriptor` | Audio Effects Pedalboard/lab_6/usb_host_driver/usb_kb/transfer.h:202-209 | a device that answers a descriptor request with some bytes, in packets of its size, is read successfully and the buffer starts with exactly these bytes, the rest unchanged |
| `Usb.UsbHost.PollReport` | Audio Effects Pedalboard/lab_6/usb_host_driver/usb_kb/HID.c:208-222 | a poll is an 8-byte IN transfer on endpoint 1, from and to its saved toggle as in the toggle results, with the data at the start of the buffer and the same report of an overrun |
| `UsbTheorems.DispatchBounded` | Audio Effects Pedalboard/lab_6/usb_host_driver/usb_kb/transfer.c:142-186 | at most 202 packets; the software timeout is reported exactly when the device takes 5000 ms or more for them together; NAK exactly on the 200th NAK and bus timeout exactly on the 3rd; every earlier packet was one of the two, and it lasts as long as the device took |
| `UsbTheorems.InReassembles` | Audio Effects Pedalboard/lab_6/usb_host_driver/usb_kb/transfer.c:191-227 | a successful transfer holds exactly the acknowledged payloads, joined in order; only the last packet can be short, and it stopped for being short or because enough had come as far as the 16-bit count can tell, not before |
| `UsbTheorems.InOutcome` | Audio Effects Pedalboard/lab_6/usb_host_driver/usb_kb/transfer.c:198-226 | whatever a transfer ends in, its data is that of the packets accepted with data, joined in order; 0xF0 is an accepted packet without data, any other failure what the last packet ended in |
| `UsbLimits.DataFitsIff` | Audio Effects Pedalboard/lab_6/usb_host_driver/usb_kb/transfer.c:213-225 | the data of every device that keeps to the packet size fits the request if and only if the packet size is 0, or something is asked for and the packet size divides it; for a report of 8 bytes: 0, 1, 2, 4 or 8 |
| `UsbLimits.DataBoundIff` | Audio Effects Pedalboard/lab_6/usb_host_driver/usb_kb/transfer.c:213-225 | it stays less than one packet over the request if and only if something is asked for and the request rounded up to whole packets fits the 16-bit count |
| `UsbLimits.CompletesIff` | Audio Effects Pedalboard/lab_6/usb_host_driver/usb_kb/transfer.c:199-226 | a device that keeps sending completes the transfer if and only if some packet passes the exit test; otherwise every packet is taken and the loop still waits |
| `UsbLimits.TransferEndsIff` | Audio Effects Pedalboard/lab_6/usb_host_driver/usb_kb/transfer.c:197-225 | every device that keeps sending completes the transfer if and only if nothing is asked for, or the packet size is positive and the request at most 65281 bytes or the packet size 255 |
| `UsbLimits.ConformingEndsIff` | Audio Effects Pedalboard/lab_6/usb_host_driver/usb_kb/transfer.c:197-225 | for devices that keep to the packet size: if and only if nothing is asked for, or the packet size is positive and the request at most 65536 less the lowest bit of the packet size |
| `UsbTheorems.ControlStaging` | Audio Effects Pedalboard/lab_6/usb_host_driver/usb_kb/transfer.c:77-136 | a request succeeds if and only if it went through all its stages, SETUP first, then the INs, then one handshake; nothing is launched after a failed stage, which gives the result |
| `UsbReads.ControlReadReturns` | Audio Effects Pedalboard/lab_6/usb_host_driver/usb_kb/transfer.c:107-118 | a successful control read holds exactly the payloads of the packets accepted between SETUP and handshake, reassembled for the number of bytes asked for; the toggle saved is DATA1 flipped once for each of them |
| `UsbReads.ControlReadToggle` | Audio Effects Pedalboard/lab_6/usb_host_driver/usb_kb/transfer.c:113-118 | the toggle saved by any control read: after the data stage DATA1 flipped once for each IN stage, whatever the handshake does; DATA1 if an IN stage failed |
| `UsbReads.ReadReturnsTheAnswer` | Audio Effects Pedalboard/lab_6/usb_host_driver/usb_kb/transfer.c:77-118 | reading undoes sending: a device that sends any answer no longer than asked for, in packets as section 8.5.3.2 of the USB 2.0 specification has them, is read successfully and exactly |
| `UsbTheorems.StatusConformsIff` | Audio Effects Pedalboard/lab_6/usb_host_driver/usb_kb/transfer.c:107-136 | a successful request ends in the handshake of section 8.5.3 of the USB 2.0 specification if and only if it is not a read without a buffer |
| `UsbTheorems.ReadWithoutBuffer` | Audio Effects Pedalboard/lab_6/usb_host_driver/usb_kb/transfer.c:126-136 | the failing family on a device that answers at once: a read without a buffer succeeds and ends in the OUT handshake |
| `UsbToggles.OnePacketTransfer` | Audio Effects Pedalboard/lab_6/usb_host_driver/usb_kb/transfer.c:198-224 | a request of one packet is over with its first packet or fails before it |
| `UsbToggles.PollKeepsStepIff` | Audio Effects Pedalboard/lab_6/usb_host_driver/usb_kb/HID.c:208-222 | a poll keeps host and device toggles in step against every device if and only if a packet can carry the whole report |
| `UsbToggles.ResetKeepsStepIff` | Audio Effects Pedalboard/lab_6/usb_host_driver/usb_kb/transfer.c:126-136 | a request that resets the device toggle keeps the two sides in step against every device if and only if the saved toggle is DATA0 |
| `UsbToggles.ResetAtData1` | Audio Effects Pedalboard/lab_6/usb_host_driver/usb_kb/transfer.c:126-136 | the failing family on a device of two acknowledgements |
| `UsbToggles.ConfigureKeepsStepIff` | Audio Effects Pedalboard/lab_6/usb_host_driver/usb_kb/HID.c:66-94 | a configuration by the probe keeps them in step against every device if and only if the saved toggle was DATA0: a refused one leaves the device at DATA1 |
| `UsbToggles.TogglesStayInStepFromProbe` | Audio Effects Pedalboard/lab_6/usb_host_driver/usb_kb/HID.c:66-101 | section 8.6 of the USB 2.0 specification from the probe on: once the configuration completed, from any toggles before it, both sides start from DATA0 and stay in step throughout every run of polls and of requests that reset nothing, whatever fails; a packet must carry a report |
| `UsbToggles.TogglesStayInStepIff` | Audio Effects Pedalboard/lab_6/usb_host_driver/usb_kb/HID.c:203-222 | over whole runs of polls, requests, resets and configurations, where a packet can carry a report: in step throughout against every device if and only if no reset or configuration can come while the saved toggle is DATA1, which the order of the run tells |
| `Hid.Prober.Skip` | Audio Effects Pedalboard/lab_6/usb_host_driver/usb_kb/HID.c:47-51 | the byte walk stops where the walk on values does |
| `Hid.Prober.Request` | Audio Effects Pedalboard/lab_6/usb_host_driver/usb_kb/transfer.c:205-213 | every byte of the answer comes to stand at its place in the buffer, every later byte stays |
| `Hid.Prober.FetchConfiguration` | Audio Effects Pedalboard/lab_6/usb_host_driver/usb_kb/HID.c:26-41 | it succeeds if and only if both requests do; then every byte of the second answer stands in the buffer, behind it what is left of the first, behind that the old bytes; the length announced, cut to the buffer |
| `Hid.Prober.AdoptInterface` | Audio Effects Pedalboard/lab_6/usb_host_driver/usb_kb/HID.c:64-71 | the tables after an interface has matched, the packet size cut to a byte |
| `Hid.Prober.Probe` | Audio Effects Pedalboard/lab_6/usb_host_driver/usb_kb/HID.c:19-111 | result, tables and the settings sent of a probe, every failing path included, those of the probe on values; the keyboard probe at lines 117-201 differs in two constants |
| `HidTheorems.WalkFindsFirst` | Audio Effects Pedalboard/lab_6/usb_host_driver/usb_kb/HID.c:47-79 | over every list of well-formed descriptors in the buffer the walk ends, from any descriptor on, at exactly the first one of the type or at the end |
| `HidTheorems.FetchedBytes` | Audio Effects Pedalboard/lab_6/usb_host_driver/usb_kb/HID.c:26-41 | what both requests leave in the buffer is what the device answered, byte for byte; the walk covers the length announced in bytes 2 and 3, at most 256 |
| `HidTheorems.ReadsBringAnswers` | Audio Effects Pedalboard/lab_6/usb_host_driver/usb_kb/HID.c:26-41 | a device that serves its descriptors over the bus, first 9 bytes and then all, gives the answers of the next result |
| `HidTheorems.ProbeInvertsSerialisation` | Audio Effects Pedalboard/lab_6/usb_host_driver/usb_kb/HID.c:19-110 | from the answers of a device that announces and sends any well-formed descriptors: a probe takes it if and only if the first interface is its kind, an endpoint follows and both settings succeed; it records exactly that interface and endpoint, and sends the configuration value from byte 5 and then, if that was accepted, the boot protocol for that interface; otherwise nothing changes but what a matching interface alone sets |
| `HidTheorems.FailedRequestChangesNothing` | Audio Effects Pedalboard/lab_6/usb_host_driver/usb_kb/HID.c:27-40 | a probe in which a descriptor request fails changes no table and sends nothing |
| `HidTheorems.NotBothProbes` | Audio Effects Pedalboard/lab_6/usb_host_driver/usb_kb/HID.c:138-200 | no configuration at all is taken by the mouse and by the keyboard probe |
| `HidTheorems.NeverEndsIff` | Audio Effects Pedalboard/lab_6/usb_host_driver/usb_kb/HID.c:47-51 | on arbitrary bytes the loop passes over a record at every hop for ever if and only if some hop reaches a record of length 0 that is not of the type |
| `HidTheorems.ZeroLengthHangs` | Audio Effects Pedalboard/lab_6/usb_host_driver/usb_kb/HID.c:47-51 | a configuration that makes both probes run for ever |
| `UsbEnum.HostStack.constructor` | Audio Effects Pedalboard/lab_6/usb_host_driver/main.c:143-145 | the state after the two initialisations |
| `UsbEnum.HostStack.UsbInit` | Audio Effects Pedalboard/lab_6/usb_host_driver/usb_kb/transfer.c:229-240 | the device table is cleared but for address 0 |
| `UsbEnum.HostStack.BusProbe` | Audio Effects Pedalboard/lab_6/usb_host_driver/usb_kb/MAX3421E.c:101-146 | the task state after a bus sample |
| `UsbEnum.HostStack.MaxTask` | Audio Effects Pedalboard/lab_6/usb_host_driver/usb_kb/MAX3421E.c:168-202 | the task state after the interrupt handler, the increment on a bus event included |
| `UsbEnum.HostStack.AssignAddress` | Audio Effects Pedalboard/lab_6/usb_host_driver/usb_kb/transfer.c:336-359 | the first free address is taken, and kept even if the device refuses it |
| `UsbEnum.HostStack.RunProbes` | Audio Effects Pedalboard/lab_6/usb_host_driver/usb_kb/transfer.c:360-374 | RUNNING if a probe takes the device, otherwise, in the named state, ERROR |
| `UsbEnum.HostStack.UsbTask` | Audio Effects Pedalboard/lab_6/usb_host_driver/usb_kb/transfer.c:246-385 | one call of the state machine in every task state, unnamed ones included |
| `UsbEnum.HostStack.MainStep` | Audio Effects Pedalboard/lab_6/usb_host_driver/main.c:146-226 | one pass of the main loop in its order, with the second initialisation on leaving RUNNING |
| `EnumTheorems.StepKeepsInvIff` | Audio Effects Pedalboard/lab_6/usb_host_driver/main.c:146-226 | a pass keeps the enumeration invariant if and only if the interrupts it meets are safe: a condition on the state, the bus sample, the bus event and, when that comes while configuring, the probes that run after it |
| `EnumTheorems.StepAlwaysKeepsInvIff` | Audio Effects Pedalboard/lab_6/usb_host_driver/main.c:146-226 | it keeps it whatever the probes find if and only if a condition on the state, the bus sample and the bus event alone holds before the pass |
| `EnumTheorems.QuietIsSafe` | Audio Effects Pedalboard/lab_6/usb_host_driver/usb_kb/MAX3421E.c:188-199 | passes without an SE1 sample and with bus events only while the reset is awaited are safe |
| `EnumTheorems.EnumerationIsSafe` | Audio Effects Pedalboard/lab_6/usb_host_driver/usb_kb/transfer.c:255-384 | after any number of safe passes the task state is a named one, no address is held while detached, and RUNNING was entered by a probe of the very address the device had just acknowledged |
| `EnumTheorems.RunIsSafeIff` | Audio Effects Pedalboard/lab_6/usb_host_driver/main.c:146-226 | over whole runs the invariant holds throughout if and only if every pass is safe |
| `EnumTheorems.EnumerationIsSafeFromBoot` | Audio Effects Pedalboard/lab_6/usb_host_driver/main.c:143-226 | the same from power-on, whatever the first bus sample |
| `EnumProgress.RefusalIsAnError` | Audio Effects Pedalboard/lab_6/usb_host_driver/usb_kb/transfer.c:297-374 | on a quiet bus a refused device descriptor, a refused address, no free address and no probe that takes the device each lead from their state to ERROR in that very pass; a descriptor or a probe that is granted leads on |
| `EnumProgress.AddressOffered` | Audio Effects Pedalboard/lab_6/usb_host_driver/usb_kb/transfer.c:336-359 | the lowest free address is offered and stays held; accepted it is the one configured, refused an error |
| `EnumProgress.ErrorStays` | Audio Effects Pedalboard/lab_6/usb_host_driver/usb_kb/transfer.c:378-380 | in ERROR nothing changes during any run without an interrupt |
| `EnumProgress.EnumerationRests` | Audio Effects Pedalboard/lab_6/usb_host_driver/main.c:143-226 | from power-on, with a device connected and a quiet bus, the stack is at rest at the latest four passes after one that finds the bus reset over, two or more after one that comes after the settle time: in RUNNING if and only if every request made on the way was granted, otherwise in ERROR |
| `EnumProgress.RefusingDeviceIsAnError` | Audio Effects Pedalboard/lab_6/usb_host_driver/main.c:143-226 | from power-on into ERROR: a device that never answers its descriptor, never accepts an address, or that no probe takes |
| `EnumProgress.RunningIsReached` | Audio Effects Pedalboard/lab_6/usb_host_driver/main.c:143-226 | in particular a device that answers everything ends in RUNNING |
| `EnumProgress.SettlesUntilThen` | Audio Effects Pedalboard/lab_6/usb_host_driver/usb_kb/transfer.c:274-284 | until the settle time is over the stack settles, however many passes |
| `EnumProgress.WaitsForReset` | Audio Effects Pedalboard/lab_6/usb_host_driver/usb_kb/transfer.c:285-296 | while every pass finds the bus in reset it waits for that, at most |
| `EnumEvents.BootStates` | Audio Effects Pedalboard/lab_6/usb_host_driver/main.c:143-145 | the state at power-on goes by the first bus sample, with no address held |
| `EnumEvents.DisconnectForgets` | Audio Effects Pedalboard/lab_6/usb_host_driver/usb_kb/MAX3421E.c:134-144 | a disconnection leaves no address held and the stack waiting for a device; a running stack goes by the next sample |
| `EnumEvents.ConnectStarts` | Audio Effects Pedalboard/lab_6/usb_host_driver/usb_kb/MAX3421E.c:101-133 | a connection starts the settle time of 200 ms from every state but the awaited reset, which goes on, and a running stack, which initialises everything again |
| `EnumEvents.EventEndsReset` | Audio Effects Pedalboard/lab_6/usb_host_driver/usb_kb/MAX3421E.c:196-199 | a bus event while the reset is awaited ends the wait within the pass |
| `EnumEvents.PluggedInRests` | Audio Effects Pedalboard/lab_6/usb_host_driver/main.c:146-226 | a device connected later comes to rest as one present at power-on: RUNNING if and only if every request is granted, otherwise ERROR |
| `EnumEvents.ReplugRuns` | Audio Effects Pedalboard/lab_6/usb_host_driver/main.c:146-226 | from any state that keeps the invariant, a disconnection, any number of idle passes and the connection of a device that answers everything end in RUNNING |
| `EnumTheorems.IllegalStateLeaksAddress` | Audio Effects Pedalboard/lab_6/usb_host_driver/usb_kb/MAX3421E.c:134-144 | from any state outside RUNNING that holds an address, an SE1 sample and a disconnection leave the stack waiting for a device with the address still held |
| `EnumTheorems.RunLeaksAddress` | Audio Effects Pedalboard/lab_6/usb_host_driver/main.c:143-226 | such a run from power-on: the device refuses its address, then SE1, then disconnection |
| `EnumTheorems.RunLosesItself` | Audio Effects Pedalboard/lab_6/usb_host_driver/usb_kb/MAX3421E.c:196-199 | from power-on, a bus event while the descriptor is about to be asked for leads to a task state that has no name |
| `TimeOfDay.Clock.GetTimeOfDay` | NIOS Accumulator/software/lab61_app_bsp/HAL/src/alt_gettod.c:79-123 | the time shown, normalised by the two loops, or ENOTSUP without a clock |
| `TimeOfDay.Clock.SetTimeOfDay` | NIOS Accumulator/software/lab61_app_bsp/HAL/src/alt_settod.c:72-96 | the stored time and zone, or ENOSYS without a change |
| `TimeOfDay.GetShows` | NIOS Accumulator/software/lab61_app_bsp/HAL/src/alt_gettod.c:91-112 | for every stored time the time shown is normal and exact, unless both it and its microsecond part are below zero, when zero is shown |
| `TimeOfDay.ElapsedExactIff` | NIOS Accumulator/software/lab61_app_bsp/HAL/src/alt_gettod.c:89-92 | ticks count exactly if and only if the tick rate divides a million |
| `TimeOfDay.WrapKeepsIff` | NIOS Accumulator/software/lab61_app_bsp/HAL/src/alt_settod.c:83-84 | a product cut to 32 bits keeps its microseconds if and only if the number of wraps is a multiple of 15625 |
| `TimeOfDay.SetExactIff` | NIOS Accumulator/software/lab61_app_bsp/HAL/src/alt_settod.c:80-89 | exactly when the 32-bit product of the setting does no harm; from 64 ticks a second on, exactly when it does not wrap |
| `TimeOfDay.GetAfterSet` | NIOS Accumulator/software/lab61_app_bsp/HAL/src/alt_gettod.c:89-112 | at a rate that divides a million, a get after a set of any time shows the set time plus the ticks since, off by exactly the error of the setting product, or zero in the case above |
| `TimeOfDay.SetGetExactIff` | NIOS Accumulator/software/lab61_app_bsp/HAL/src/alt_settod.c:80-89 | at a rate that divides a million, set and get are inverse and the time advances exactly with the ticks, for every time from the epoch on and every later tick, if and only if the setting is exact |
| `TimeOfDay.RoundTrip` | NIOS Accumulator/software/lab61_app_bsp/HAL/src/alt_settod.c:80-89 | a get at the tick of an exact set returns the very time set |
| `TimeOfDay.SetIsOff` | NIOS Accumulator/software/lab61_app_bsp/HAL/src/alt_settod.c:80-89 | at 1000 ticks a second and tick 4294968 a get at the tick of the set is off by 0.967296 seconds, for every time |
| `AltGmon.Profiler.MoveEnd` | NIOS Accumulator/software/lab61_app_bsp/HAL/src/alt_sbrk.c:68-95 | the aligned end moves, or stays aligned and the request is refused |
| `AltGmon.Profiler.Sbrk` | NIOS Accumulator/software/lab61_app_bsp/HAL/src/alt_sbrk.c:68-136 | the block handed out; allocator and profiler lists stay sound if and only if the request is harmless |
| `AltGmon.Profiler.Allocate` | NIOS Accumulator/software/lab61_app_bsp/HAL/src/alt_gmon.c:133-148 | the block cut from the slab, a fresh slab if it does not fit, refusals ignored as in the code |
| `AltGmon.SearchFn` | NIOS Accumulator/software/lab61_app_bsp/HAL/src/alt_mcount.S:69-75 | the first search loop, on the words in memory, finds the function entry or 0 |
| `AltGmon.SearchArc` | NIOS Accumulator/software/lab61_app_bsp/HAL/src/alt_mcount.S:77-84 | the second search loop finds the arc or 0; reading the first arc unasked is safe because every function has one |
| `AltGmon.Profiler.NewFn` | NIOS Accumulator/software/lab61_app_bsp/HAL/src/alt_gmon.c:183-193 | a new function entry heads its bucket; if the memory for it is there, every other list in memory stays as it was |
| `AltGmon.Profiler.NewArc` | NIOS Accumulator/software/lab61_app_bsp/HAL/src/alt_gmon.c:195-204 | a new arc heads its function list; if the memory for it is there, every other list in memory stays as it was |
| `AltGmon.Profiler.Record` | NIOS Accumulator/software/lab61_app_bsp/HAL/src/alt_gmon.c:159-207 | the slow path: heap and graph after it; everything stays sound, the graph showing this call too, if and only if the memory is there |
| `AltGmon.Profiler.Mcount` | NIOS Accumulator/software/lab61_app_bsp/HAL/src/alt_mcount.S:50-122 | if and only if the memory the call needs is there, the lists in memory then show exactly the calls made, each arc once and with its count modulo 2^32, in disjoint words of blocks that are aligned, apart and inside the heap |
| `GmonHeap.StepKeepsIff` | NIOS Accumulator/software/lab61_app_bsp/HAL/src/alt_gmon.c:133-148 | a request keeps all blocks aligned, apart and inside the heap if and only if it is harmless: an allocation is served, a shrinking sbrk stays above what is in use |
| `GmonHeap.SbrkGrants` | NIOS Accumulator/software/lab61_app_bsp/HAL/src/alt_sbrk.c:68-136 | with the break moved up to a multiple of 4, exactly the requests are granted that leave it between 0 and the limit; a growing one gets the bytes from there on, a refused one 0xFFFFFFFF |
| `GmonHeap.RunIsSafeIff` | NIOS Accumulator/software/lab61_app_bsp/HAL/src/alt_sbrk.c:76-95 | over every sequence of sbrk and allocations the blocks stay aligned, apart and inside the heap if and only if every request is harmless |
| `GmonHeap.FirstEntryRefused` | NIOS Accumulator/software/lab61_app_bsp/HAL/src/alt_gmon.c:137-147 | on a heap smaller than a slab the very first entry comes to lie at the refusal code, outside the heap |
| `GmonLists.CountKeepsIff` | NIOS Accumulator/software/lab61_app_bsp/HAL/src/alt_gmon.c:159-207 | a call keeps the blocks aligned, apart and inside the heap if and only if the memory it needs is there |
| `GmonLists.WithArcsList` | NIOS Accumulator/software/lab61_app_bsp/HAL/src/alt_gmon.c:195-204 | changing one function arc list in its own words leaves the rest of the bucket as it was |
| `GmonLists.RepStep` | NIOS Accumulator/software/lab61_app_bsp/HAL/src/alt_gmon.c:183-204 | changing one bucket leaves the other buckets as they were |
| `GmonLists.NewArcSound` | NIOS Accumulator/software/lab61_app_bsp/HAL/src/alt_gmon.c:195-204 | allocation, stores and lists together stay sound when an arc is added |
| `GmonLists.BumpSound` | NIOS Accumulator/software/lab61_app_bsp/HAL/src/alt_mcount.S:118-122 | counting in place keeps everything sound and changes that count alone |
| `GmonLists.CountedMeans` | NIOS Accumulator/software/lab61_app_bsp/HAL/src/alt_gmon.c:159-207 | a call adds one to the count of its own arc and to no other |
| `GmonLists.CountedFaithful` | NIOS Accumulator/software/lab61_app_bsp/HAL/src/alt_gmon.c:159-207 | a graph that shows exactly the calls so far shows exactly the calls so far and the next one |
| `Irq.Controller.Register` | NIOS Accumulator/software/lab61_app_bsp/HAL/src/alt_irq_register.c:75-100 | a source is enabled if and only if its handler is not NULL; no other entry changes |
| `Irq.Controller.Pass` | NIOS Accumulator/software/lab61_app_bsp/HAL/src/alt_irq_handler.c:130-155 | the bit search calls the handler of the least pending source, which is never NULL |
| `Irq.Controller.Handle` | NIOS Accumulator/software/lab61_app_bsp/HAL/src/alt_irq_handler.c:128-159 | the drain loop ends with nothing pending and calls the handlers of the drain on values, none of them NULL |
| `Irq.WordBit` | NIOS Accumulator/software/lab61_app_bsp/HAL/src/alt_irq_handler.c:143-153 | testing the pending word with the shifted mask tests for the source |
| `IrqTheorems.DrainIff` | NIOS Accumulator/software/lab61_app_bsp/HAL/src/alt_irq_handler.c:128-159 | whatever arrives, the calls are the only sequence that serves the least source pending at each pass and leaves none pending; what is pending is told from the arrivals and the calls alone |
| `IrqTheorems.QuietDrain` | NIOS Accumulator/software/lab61_app_bsp/HAL/src/alt_irq_handler.c:128-159 | without arrivals the pending sources are called, each once, in ascending order |
| `IrqTheorems.Priority` | NIOS Accumulator/software/lab61_app_bsp/HAL/src/alt_irq_handler.c:128-159 | while a source waits only sources of higher priority are called |
| `IrqTheorems.RaisedIsCalled` | NIOS Accumulator/software/lab61_app_bsp/HAL/src/alt_irq_handler.c:128-159 | every source pending at the start is called |
| `IrqTheorems.ArrivalIsCalled` | NIOS Accumulator/software/lab61_app_bsp/HAL/src/alt_irq_handler.c:128-159 | every enabled source that goes up during a pass is called in a later one |
| `IrqTheorems.DrainBounded` | NIOS Accumulator/software/lab61_app_bsp/HAL/src/alt_irq_handler.c:128-159 | a drain makes no more calls than sources were up or went up |

## Left out

- AltAlarm.AlarmSystem.Tick: a callback is only its return value here; what callbacks may start and stop from inside the walk is `AlarmCallbacks.TickSafeIff`, on the list of addresses that the next fields spell out (`AlarmCallbacks.NextIsLink`).
- AltAlarm.AlarmSystem.Start: requires of an unlisted alarm an address of its own; disabling interrupts around list updates is not modelled.
- AltFd.FdTable.Open: the name lookups are a parameter, the `mode` argument and the semaphores are dropped, and driver callbacks answer any status but do not touch the pool; the error numbers are those of newlib, whose errno.h is not part of this model.
- Printf.AltLogPrintf: widths are unbounded integers (a width beyond 32 bits is undefined in C), and the UART with its polling is the returned string.
- Usb.UsbHost.DispatchPkt: the millisecond clock is a counter read once per poll, without the wrapping of its conversion from ticks.
- AltFd.FdTable.Close: a descriptor that is not negative is required to be open, since the code follows its device pointer unasked.
- AltFd.FdTable.Ioctl: the same.
- Usb.UsbHost.CtrlReq: for a data stage requires endpoint records, which the code follows unasked; what an overrun overwrites behind the buffer is not modelled, nor the eight bytes of the SETUP packet: what a request asks for shows in what the device answers.
- Usb.UsbHost.PollReport: requires a probed device, whose endpoint records the code follows unasked.
- Usb.UsbHost.InTransfer: what an overrun overwrites behind the buffer is not modelled, only that there was one.
- Hid.Prober.Probe: each request of a probe is its result code and, for a descriptor, the bytes it puts into the buffer; 16-bit fields are read low byte first; memory behind the buffer holds any bytes, and a configuration on which the walk never ends is excluded (`HidTheorems.NeverEndsIff` says which these are).
- UsbEnum.HostStack.UsbTask: string-descriptor requests, whose results the code ignores, packet sizes and `usb_error` are dropped; each request is its result code; the frame test of WAIT_SOF uses a bitwise or, so it always passes, as modelled.
- UsbEnum.HostStack.MainStep: the printing, LED and hex-digit output of the main loop, the calls of the polls and `errorflag`.
- UsbToggles.ResetStep: the device resets its toggle when the request completes on the host; a device that acts on a request whose status stage fails is not modelled.
- TimeOfDay.Clock.GetTimeOfDay: seconds are unbounded integers, and the zone is always returned, while the code skips it for a caller that passes none.
- AltGmon.Profiler.Mcount: what a store to a refused, misaligned address does is not modelled; an interruption of the search by another counted call, which can leave an arc twice, and the start of PC sampling are not modelled.
- AltGmon.Profiler.Sbrk: the heap lies below 2^31, since bit 31 of an address bypasses the cache; the variant with a maximum heap size and the stack checks are dropped.
- Irq.Controller.Handle: requires a pending interrupt, without which the search for one never ends; a handler clears its own source and does not register handlers; arrivals are finitely many, since a source that keeps going up is served for ever; the custom-instruction variant of the loop is dropped.
- The second copy of the HAL sources, the register-level SPI bodies, reset and power sequencing: same text or hardware plumbing.
- The PC-sampling histogram and the JTAG UART status printing: tied to registers and linker symbols.
- The text-display drivers copy characters and palette words to registers, the accumulator adds switch values, the codec driver reads and writes SGTL5000 registers: register accesses with no state of their own.
- Stub system calls, generated initialisation files and linker headers: no behaviour to prove.
