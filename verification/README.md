# TGC-VP firmware support package: models and proofs

The bare-metal board support package under `fw/bsp` holds the logic of this repository: the SMP barrier,
the clock controller driver, formatted output and the UART path, trap entry and exit, counter reads, the
program break and the PLIC driver. Each is modelled here in Dafny and its promises are proved for all inputs,
runs and interleavings.

| file | subject |
|---|---|
| `SmpBarrier.dfy`, `SmpProgress.dfy`, `SmpRounds.dfy` | `smp_pause` / `smp_resume` as steps of N harts: safety, progress, the limit of back-to-back rounds, any number of rounds |
| `Prci.dfy`, `TrimSearch.dfy` | both copies of the clock driver against a device that moves between accesses; the trim search |
| `Counters.dfy` | 64-bit counter reads, the two frequency measurements, the UART divisor |
| `Digits.dfy`, `Printf.dfy` | `printnum`, `write_hex`, `vprintfmt` |
| `PrintfLaws.dfy`, `PrintfPieces.dfy`, `Conversions.dfy` | the laws of its rendering; formats put together from pieces; what each conversion prints |
| `Uart.dfy` | FIFO polling, newline expansion, `write`, `puts`, `printf`, `sprintf` |
| `Trap.dfy`, `TrapNesting.dfy`, `VectoredTraps.dfy` | entry and exit code run instruction by instruction; traps inside handlers; the vectored form |
| `Heap.dfy` | `sbrk` / `malloc` |
| `Plic.dfy`, `PlicHarts.dfy` | enable bitmaps, priorities, thresholds; several harts at once |
| `Arith.dfy` | products and quotients |

## How the hardware enters

* The barrier is a step function per hart and a schedule, any sequence of hart numbers. One step is one access
  to an MSIP word or to `mip`; register-only instructions belong to the access they follow. Memory is
  sequentially consistent. A hart that is not scheduled stalls, so running code between barriers needs no step.
* The devices of the clock driver and of the counters are functions from the number of a bus access to what the
  hardware shows at it, so anything may change between two accesses. Polling loops end because the hardware
  shows what they wait for again and again (`Live`, `Running`, `QuietAfter`, `DrainsFrom`). Every finite
  stretch of a run in which it never does is also a stretch of one in which it does later, so what is proved of
  every access of a run (`AllOrderly`, `PoweredSince`, `InOrderSince`) holds of such runs too.
* How far the counters move between two polls is bounded where the code depends on it: `PollsWithin` (no 32-bit
  difference of mtime is missed), `TickByTick` (the driver copy divides by the ticks it asked for) and
  `CyclesPaced` (a wide read is retried at most once). `SteadyClock` is a clock that meets all of these.
* A trap handler is stretches of work, each any function of the machine, with traps between them. `live` names the
  addresses that matter to it from there on; everything else, mcause and mepc included, may differ. A handler is
  asked to keep sp and the memory above it; only the results about its own work ask what that work reads.
* PRCI registers are kept field by field; a macro such as `PLL_R(x)` is the remainder that its mask computes.
  `PllWordFields` shows that the fields determine the word. RDY and LOCK are read-only. The crystal oscillator
  is always on: no code switches it off.
* 32-bit arithmetic is written out: `Low`, `Sub32`, `Moved`, `Unsigned`, `Signed`.
* Characters are Dafny characters and stand for bytes. The callback of `vprintfmt` is the sequence of its calls.

## Where the code and its documentation disagree

The code is followed.

* `fe300prci_driver.h:38-43` promises that the CPU clock is never turned off. `PRCI_use_pll` stores the lowest bit
  of `refsel` and tests all of it, so a non-zero even `refsel` selects the ring oscillator and switches it off.
  `ClockController.UsePll` and `PowerAfterUsePll` show the promise kept exactly when `refsel` is zero or odd.
* `fe300prci_driver.h:29-32` promises that `PRCI_use_hfxosc` applies `finaldiv`; the bypass branch ignores it
  (`ClockController.UseHfxosc`). `ROSC_DIV` masks with 0x2F and drops bit 4 (`DivisorKept`).
* `fe300prci_driver.c:189-192` speaks of a 32x multiplier; R=1, F=31, Q=1 multiply by 16 (`PllTargets`). The branch
  for an unreachably high target takes trim 30, not 31, so a closest trim is found exactly when the target is within
  reach or trim 31 measures no more than 30 (`ClosestIsClosest`); an undershoot also passes over a trim that measures
  exactly the target, unless that is trim 0 (`UndershootIsBest`).
* `printf.c:120` calls '-' the flag to pad on the right; numbers are padded on the left with '-' characters
  (`MinusFlag`).
* A wide counter read is not torn up to an advance of 2^64 - 2^32 per attempt, and can be torn from one more than
  that on (`TearingBound`).
* The usage comment at `smp.h:27-32` puts no condition on the next `smp_pause`. A round is sure to complete exactly
  when, as hart 0 starts it, no hart still in the previous one has its own word left to read (`RoundGuaranteed`);
  a start that violates this is reachable with two harts (`OvertakeReachable`). With a hart 0 that waits for it, any
  number of rounds completes (`AllRoundsComplete`). Safety needs no condition.
* `smp.h:27-32` speaks of blocking the other threads. Hart 0 waits for nobody: it can be in its section while another
  hart has not paused (`SoloAmongParallel`). Blocked are exactly the harts that have come to wait (`SoloHolds`), until
  hart 0 leaves its section (`HeldThroughSolo`).
* The vectored entry saves no mepc: after traps inside a vectored handler, execution resumes where the last of them
  was taken (`VectoredNesting`, `OneNestedTrap`).
* `malloc` of more than 2^31 bytes can succeed by moving the break down (`GrantedIffFits`, `HugeRequestShrinks`).

## Model

| member | source | states |
|---|---|---|
| SmpBarrier.ZeroMeansCleared | fw/bsp/include/platform/smp.h:58-60 | a word read as zero while polling in round r was cleared by its owner for round r: word 0 because it is set first and polled first |
| SmpBarrier.StepInv | fw/bsp/include/platform/smp.h:34-63 | every step of every hart keeps the invariant that ties words, rounds and positions together |
| SmpBarrier.BarrierSafety | fw/bsp/include/platform/smp.h:27-63 | any harts, rounds and interleavings: r resumes left means r solo sections done and r clears by every hart; hart 0 at most one round ahead; pollers of a round being stored are held at word 0 |
| SmpProgress.MoveLowers | fw/bsp/include/platform/smp.h:41-63 | a step spins in place or lowers a global measure over stores, waits, clears and polled indices |
| SmpProgress.SomeHartMoves | fw/bsp/include/platform/smp.h:41-63 | no deadlock inside a round: while some hart has not left, some hart has a step that changes the state |
| SmpProgress.RoundCompletes | fw/bsp/include/platform/smp.h:40-63 | every fair schedule brings all harts out of the round, with all words zero |
| SmpProgress.FirstRoundCompletes | fw/bsp/include/platform/smp.h:40-63 | one round from all-zero words completes under every fair schedule |
| SmpProgress.StuckForever | fw/bsp/include/platform/smp.h:58-63 | a hart that must still poll its own word, already set for the next round, never leaves under any schedule |
| SmpProgress.RoundGuaranteed | fw/bsp/include/platform/smp.h:27-63 | at the start of a round: all fair schedules complete it if and only if no hart still has to read its own word |
| SmpProgress.OvertakeReachable | fw/bsp/include/platform/smp.h:27-63 | two harts can reach such a start from reset |
| SmpRounds.AllRoundsComplete | fw/bsp/include/platform/smp.h:27-63 | from reset, if hart 0 ends each solo section only once nobody has its own word of the last round left to read, any number of rounds completes under every fair schedule, with that many solo sections and all words zero |
| SmpRounds.SomebodyMoves | fw/bsp/include/platform/smp.h:40-63 | such runs never deadlock before all rounds are done |
| SmpBarrier.SoloHolds | fw/bsp/include/platform/smp.h:27-38 | in a solo section all words are zero and the other harts held are exactly those waiting for their word |
| SmpBarrier.HeldThroughSolo | fw/bsp/include/platform/smp.h:27-52 | a held hart stays held under every schedule of the others until hart 0 leaves its section |
| SmpProgress.SoloAmongParallel | fw/bsp/include/platform/smp.h:34-38 | from reset hart 0 can be in its solo section while another hart runs parallel code |
| Prci.ClockController.UseHfrosc | fw/bsp/drivers/fe300prci/fe300prci_driver.c:53-63 | final registers; SEL falls only after RDY; the CPU clock stays on |
| Prci.ClockController.LeavePll | fw/bsp/drivers/fe300prci/fe300prci_driver.c:69-73 | one read of PLLCFG decides; afterwards the CPU is off the PLL and was clocked throughout |
| Prci.ClockController.LockPll | fw/bsp/env/tgfs-vp/init.c:113-125 | un-bypass, at least 4 real ticks across any wrap, then a read that saw LOCK, with PLLCFG untouched since |
| Prci.ClockController.UsePll | fw/bsp/drivers/fe300prci/fe300prci_driver.c:65-150 | final registers, with r, f, q, reference and bypass in their own fields; every access orderly; the CPU clock on throughout exactly when refsel is zero or odd |
| Prci.UsePllFields | fw/bsp/drivers/fe300prci/fe300prci_driver.c:65-150 | the other registers one by one: final divider less one, trim and divider of the oscillator when asked for, its enable |
| Prci.PllWordAfter | fw/bsp/include/platform/devices/prci.h:23-30 | the PLLCFG word left, bit by bit: R at 0, F at 4, Q at 10, SEL, REFSEL and BYPASS at 16 to 18 |
| Prci.ClockController.InitUsePll | fw/bsp/env/tgfs-vp/init.c:55-130 | the start-up copy: same fields and ordering, SPI divider 8 before the access that selects the PLL, oscillator never switched off |
| Prci.ClockController.UseDefaultClocks | fw/bsp/drivers/fe300prci/fe300prci_driver.c:152-159 | low-frequency oscillator off, ring oscillator selected, clock on throughout |
| Prci.ClockController.UseHfxosc | fw/bsp/drivers/fe300prci/fe300prci_driver.c:161-172 | ends on the bypassed crystal with the ring oscillator off; the final divider asked for is set exactly when it is 1 |
| Prci.ClockController.RunCalls | fw/bsp/drivers/fe300prci/fe300prci_driver.h:38-47 | over any sequence of calls, from a running clock, the CPU clock is on at every access if and only if every refsel is zero or odd; SEL rises only after lock, falls only after ready, a running PLL is untouched, and the registers are what the calls in turn make of them |
| Prci.PowerAfterUsePll | fw/bsp/drivers/fe300prci/fe300prci_driver.c:141-148 | the source of the CPU clock is on after the power saving if and only if refsel is zero or odd |
| Prci.SelectedAfterLock | fw/bsp/drivers/fe300prci/fe300prci_driver.c:125-142 | SEL rises to an unbypassed PLL only after the bypass ended, 4 ticks at least passed and LOCK was seen, configuration unchanged since |
| Prci.OrderlyMeans | fw/bsp/drivers/fe300prci/fe300prci_driver.c:53-142 | what every run of the driver keeps: locked selections, drops only for an oscillator seen ready as configured, no change of a running PLL |
| Prci.UntouchedBetween | fw/bsp/drivers/fe300prci/fe300prci_driver.c:69-73 | dividers, reference, bypass and PLLDIV are constant over any stretch of a run with SEL set |
| Prci.ElapsedIsReal | fw/bsp/drivers/fe300prci/fe300prci_driver.c:133-134 | 32-bit elapsed ticks never exceed the real ones, wrap or not |
| Prci.PllWordFields | fw/bsp/include/platform/devices/prci.h:23-30 | the fields of PLLCFG do not overlap: equal words have equal fields |
| Prci.DivisorKept | fw/bsp/include/platform/devices/prci.h:15 | a 6-bit divisor survives ROSC_DIV if and only if its bit 4 is clear |
| TrimSearch.Measure | fw/bsp/drivers/fe300prci/fe300prci_driver.c:20-50 | the measuring routine on the controller's own accesses: registers constant throughout, clock kept |
| TrimSearch.Search | fw/bsp/drivers/fe300prci/fe300prci_driver.c:201-215 | the readings at the trims from 0 on, all taken since the search began and each with the CPU off the oscillator at that trim, the first one taken twice; ends within 31 increments at the first reading at or above the target, or at 31 |
| TrimSearch.SetHfrosctrimForFCpu | fw/bsp/drivers/fe300prci/fe300prci_driver.c:182-250 | the trim is the specified choice from the readings taken, the PLL runs from the oscillator at it with R=1, F=31, Q=1, clock on throughout, and the result is a later reading of that |
| TrimSearch.Decide | fw/bsp/drivers/fe300prci/fe300prci_driver.c:217-245 | the branches pick the specified trim and no unsigned difference underflows |
| TrimSearch.BelowReach | fw/bsp/drivers/fe300prci/fe300prci_driver.c:217-221 | a target below trim 0: trim 0 for every kind of target, and no trim is slower |
| TrimSearch.AboveReach | fw/bsp/drivers/fe300prci/fe300prci_driver.c:224-228 | a target beyond trim 31: trim 30 for every kind of target, and none but 31 is faster |
| TrimSearch.WithinReach | fw/bsp/drivers/fe300prci/fe300prci_driver.c:231-245 | a target between two trims: the upper for overshoot, the lower for undershoot, and for closest the lower only if it is nearer |
| TrimSearch.OvershootIsLeast | fw/bsp/drivers/fe300prci/fe300prci_driver.c:243-244 | overshoot takes the least of the 32 trims at or above the target if and only if the target is at most what trim 31 measures |
| TrimSearch.UndershootIsBelow | fw/bsp/drivers/fe300prci/fe300prci_driver.c:217-242 | undershoot is at or below the target if and only if trim 0 is |
| TrimSearch.UndershootIsBest | fw/bsp/drivers/fe300prci/fe300prci_driver.c:217-242 | the exact condition under which undershoot is a fastest trim at or below the target |
| TrimSearch.ClosestIsClosest | fw/bsp/drivers/fe300prci/fe300prci_driver.c:217-239 | closest has minimal distance over all 32 trims if and only if the target is within reach or trim 31 measures no more than 30 |
| TrimSearch.PllTargets | fw/bsp/drivers/fe300prci/fe300prci_driver.c:198-199 | undershoot PLL frequency at most f_cpu if and only if trim 0 is slow enough, overshoot above f_cpu - 16 if and only if trim 31 is fast enough |
| TrimSearch.ReadingAccuracy | fw/bsp/drivers/fe300prci/fe300prci_driver.c:32-48 | each reading is within the converted poll latency plus 1 of the true frequency over its ticks |
| TrimSearch.ChoiceWithin | fw/bsp/drivers/fe300prci/fe300prci_driver.c:217-245 | with readings within err of the truth, overshoot falls short of the target by at most err and undershoot exceeds it by less than err |
| Counters.ReadWide | fw/bsp/env/tgfs-vp/init.c:23-31 | the retry loop stops at the first quiet attempt and returns what the counter held in its middle |
| Counters.NotTorn | fw/bsp/drivers/fe300prci/fe300prci_driver.c:9-18 | equal high halves within the bound mean the composed word was held at the low read |
| Counters.TearingBound | fw/bsp/drivers/fe300prci/fe300prci_driver.c:9-18 | advances up to B never tear if and only if B is at most 2^64 - 2^32 |
| Counters.TwoAttempts | fw/bsp/drivers/fe300prci/fe300prci_driver.c:9-18 | below 2^32 per two attempts one of the two is quiet |
| Counters.ReadCycle | fw/bsp/drivers/fe300prci/fe300prci_driver.c:9-18 | `rdmcycle` ends within two attempts with the value held at the middle of the last |
| Counters.Clock.MeasureMcycleFreq | fw/bsp/drivers/fe300prci/fe300prci_driver.c:20-50 | measures exactly mtime_ticks ticks despite rollover guard and edge wait, the retries of `rdmcycle` included; result in 32-bit arithmetic |
| Counters.CountError | fw/bsp/drivers/fe300prci/fe300prci_driver.c:32-45 | counted cycles miss the true count between the two ticks by at most the latency of a poll and the wide reads beside it |
| Counters.MeasurementAccuracy | fw/bsp/drivers/fe300prci/fe300prci_driver.c:45-48 | the returned frequency is within latency * mtime_freq / mtime_ticks + 1 of the true one |
| Counters.ProductFits | fw/bsp/drivers/fe300prci/fe300prci_driver.c:47 | the product fits 64 bits |
| Counters.Clock.MeasureCpuFreq | fw/bsp/env/tgfs-vp/init.c:141-162 | over the ticks that really passed since an edge, n at least, across 32-bit wraps of both counters: cycles * 32768 / ticks if and only if the remainder product and the result fit, so always up to 2^17 ticks when the result fits |
| Counters.Clock.GetCpuFreq | fw/bsp/env/tgfs-vp/init.c:164-176 | such a measurement over at least 10 ticks once, after one over at least 1 tick, then cached |
| Counters.CpuFreqExact | fw/bsp/env/tgfs-vp/init.c:160-161 | the split formula is floor(cycles * freq / ticks) if and only if the remainder product and the result fit 32 bits |
| Counters.CpuFreqShortRun | fw/bsp/env/tgfs-vp/init.c:160-161 | so it is exact whenever ticks * freq is at most 2^32 and the result fits |
| Counters.UartDivisorFits | fw/bsp/env/tgfs-vp/init.c:182 | (div+1)*baud <= freq < (div+2)*baud if and only if baud <= freq, and div wraps to 2^32 - 1 otherwise |
| Digits.FillDigits | fw/bsp/libwrap/sys/printf.c:43-52 | any 32-bit value in base 2 to 16 fits the 32-entry buffer, which holds its digits |
| Digits.PrintNum | fw/bsp/libwrap/sys/printf.c:40-59 | emits padding and digits of the value |
| Digits.ValueOfDigits | fw/bsp/libwrap/sys/printf.c:46-52 | the digits have the value of the number |
| Digits.NumRoundTrip | fw/bsp/libwrap/sys/printf.c:54-58 | unpadded or zero-padded numbers parse back, in any base from 2 to 16 |
| Digits.UsualDigits | fw/bsp/libwrap/sys/printf.c:57-58 | digits are 0-9 and a-f in this order |
| Digits.ShowWrites | fw/bsp/libwrap/sys/printf.c:43-58 | the digits printed are digits of the base, have the value of the number and no leading zero |
| Digits.WriteHex | fw/bsp/libwrap/misc/write_hex.c:7-19 | "0x" and eight digits 0-9A-F, each the one for its place; the upper-case form of the zero-padded 8-digit text |
| Printf.ScanNumber | fw/bsp/libwrap/sys/printf.c:140-145 | reads a width or precision up to the first non-digit, within the range of int |
| Printf.PutString | fw/bsp/libwrap/sys/printf.c:183-195 | the three loops of %s give its specified text |
| Printf.Reswitch | fw/bsp/libwrap/sys/printf.c:110-245 | the goto loop of one escape gives the recursive scan of it |
| Printf.Vprintfmt | fw/bsp/libwrap/sys/printf.c:92-247 | for every format and argument list terminates, stays within the format and emits its recursive rendering, unknown escapes included |
| PrintfLaws.QuoteRoundTrip | fw/bsp/libwrap/sys/printf.c:102-107 | any text with every '%' doubled renders to itself |
| PrintfLaws.RenderFrom | fw/bsp/libwrap/sys/printf.c:101-118 | rendering depends on the rest of the format only |
| PrintfLaws.StringWidth | fw/bsp/libwrap/sys/printf.c:183-195 | %s emits max(width, min(length, precision)) characters, the string's first ones in order, padding where specified |
| PrintfLaws.NumWidth | fw/bsp/libwrap/sys/printf.c:54-58 | max(width, digits) characters ending in the digits, no leading zero beyond padding |
| PrintfLaws.MinusFlag | fw/bsp/libwrap/sys/printf.c:120-123 | the '-' flag left-justifies a number if and only if there is nothing to pad |
| PrintfLaws.SignedRoundTrip | fw/bsp/libwrap/sys/printf.c:198-205 | %d unpadded or zero-padded reads back to every int, the least included |
| PrintfLaws.WidthFromFormat | fw/bsp/libwrap/sys/printf.c:131-164 | a width written into the format by its digits is the width used |
| PrintfPieces.PiecesPrint | fw/bsp/libwrap/sys/printf.c:92-247 | any list of literals, conversions with any flags, numbers, stars and points before them, and unknown escapes, written into a format, prints the texts of its pieces in order and takes exactly their arguments |
| PrintfPieces.CutOffPrints | fw/bsp/libwrap/sys/printf.c:239-244 | an escape the format ends in the middle of, a lone '%' included, prints itself after the pieces before it |
| Conversions.UnsignedPrints | fw/bsp/libwrap/sys/printf.c:208-230 | %u, %o and %x print the argument modulo 2^32 in base 10, 8 and 16, padded on the left, whatever flags and sizes precede |
| Conversions.PlainUnsigned | fw/bsp/libwrap/sys/printf.c:208-230 | "%u", "%lu", "%o" and "%x" print the number alone |
| Conversions.PointerPrints | fw/bsp/libwrap/sys/printf.c:219-231 | %p prints 0x and then the padded base 16 digits |
| Conversions.SignedPrints | fw/bsp/libwrap/sys/printf.c:198-206 | %d prints a minus sign if negative, then padding, then the magnitude |
| Conversions.CharPrints | fw/bsp/libwrap/sys/printf.c:173-175 | %c prints the one character of the argument's low byte |
| Conversions.StringPrints | fw/bsp/libwrap/sys/printf.c:183-195 | %s prints the string up to the precision, on the side the flags say; "(null)" for a null pointer |
| Conversions.BarePrints | fw/bsp/libwrap/sys/printf.c:178-180 | %f prints nothing, %% a percent sign |
| Conversions.UnknownPrintsItself | fw/bsp/libwrap/sys/printf.c:239-244 | any other character makes the escape print itself |
| PrintfPieces.ScanMarks | fw/bsp/libwrap/sys/printf.c:110-168 | what stands between '%' and the conversion is read back mark by mark, stars with their arguments |
| PrintfPieces.UsualFields | fw/bsp/libwrap/sys/printf.c:120-164 | flags, width and precision in their usual order: last '-' or '0' counts, a precision sets a missing or negative width to 0, a negative precision is none |
| PrintfPieces.BareThen | fw/bsp/libwrap/sys/printf.c:239-244 | an unknown escape prints itself and takes the arguments of its stars only |
| PrintfLaws.WriteHexIsFormat | fw/bsp/libwrap/misc/write_hex.c:12-18 | "%08x" renders to the text whose upper-case form `write_hex` emits |
| Uart.Transmitter.Put | fw/bsp/libwrap/sys/write.c:18-19 | FIFO of any capacity draining at any time: the byte polled for is never lost |
| Uart.ExpandPlain | fw/bsp/libwrap/sys/write.c:17-25 | text without newlines is sent as it is |
| Uart.ExpandNewline | fw/bsp/libwrap/sys/write.c:21-24 | each newline becomes newline and carriage return, its surroundings are expanded alone |
| Uart.Transmitter.Write | fw/bsp/libwrap/sys/write.c:12-30 | on a terminal the expansion of the bytes is accepted in order, always a prefix on the way; -1 otherwise |
| Uart.Transmitter.Puts | fw/bsp/libwrap/sys/puts.c:12-27 | the same stream from a NUL-terminated string |
| Uart.Transmitter.Printf | fw/bsp/libwrap/sys/printf.c:249-258 | accepts the newline expansion of the rendered text |
| Uart.Sprintf | fw/bsp/libwrap/sys/printf.c:260-271 | buffer holds the rendered text and a NUL, nothing beyond is touched; returns the text's length |
| Uart.SprintfLength | fw/bsp/libwrap/sys/printf.c:266-270 | the returned length is the C string's length if and only if the text has no NUL |
| Uart.PrintBoth | fw/bsp/libwrap/sys/printf.c:249-271 | printf's stream is the expansion of sprintf's string, which can be got back from it |
| Uart.CollapseExpand | fw/bsp/libwrap/sys/write.c:17-25 | newline expansion has an exact inverse |
| Uart.ExpandCollapse | fw/bsp/libwrap/sys/write.c:17-25 | a stream is an expansion if and only if every newline is followed by a carriage return |
| Trap.Hart.Execute | fw/bsp/env/entry.S:12-90 | the hart's registers, memory and CSRs after a run of instructions |
| Trap.Hart.EnterTrap | fw/bsp/env/entry.S:12-50 | a trap leaves x1..x31 in a fresh frame, the handler's arguments in a0-a2 and all other memory alone |
| Trap.Hart.LeaveTrap | fw/bsp/env/entry.S:51-90 | with the frame intact the hart's registers are those of the interrupted code and mepc the handler's result |
| Trap.EntrySaves | fw/bsp/env/entry.S:12-49 | frame holds x1..x31, handler gets cause, epc and frame, no other memory changes |
| Trap.ExitRestores | fw/bsp/env/entry.S:51-90 | exit gives back all registers and sets mepc to the handler's result |
| Trap.TrapReturns | fw/bsp/env/entry.S:12-90 | x1..x31 equal their entry values and mepc the handler's result, for any handler that keeps sp and the frame |
| TrapNesting.EntryIsUsable | fw/bsp/env/entry.S:15-87 | entry.S saves and restores register k in slot k for every one of x1..x31 |
| TrapNesting.NestedTransparent | fw/bsp/env/tgfs-vp/init.c:196-215 | with traps nested to any depth a trap is invisible to the code it interrupts and leaves machine mode set, for all handlers that keep sp and the memory above it and return their epc |
| TrapNesting.NestingIsInvisible | fw/bsp/env/entry.S:12-90 | a handler leaves the same registers, and the same in its caller's memory and all that is live at its end, with and without traps inside it |
| TrapNesting.TrapsDoNotMix | fw/bsp/env/entry.S:12-90 | a trap gives the interrupted code the same registers, memory and resumption address whether or not its handler is interrupted |
| TrapNesting.FrameIsOverwritten | fw/bsp/env/entry.S:15-45 | the words below sp hold the interrupted registers after a trap: nothing there survives |
| TrapNesting.SavedAcrossTrap | fw/bsp/env/entry.S:12-90 | a handler that saves its epc on the stack, is interrupted by any behaving trap and reloads it meets what these results ask, and returns its epc |
| TrapNesting.SavingBehaves | fw/bsp/env/entry.S:12-90 | such handlers inside each other to any depth: the trap gives all registers back and resumes at its pc |
| TrapNesting.StackPair | fw/bsp/env/entry.S:15-45 | store and load instructions around an sp adjustment are such saving and reloading |
| VectoredTraps.CallerIsCallerTable | fw/bsp/env/ventry.S:13-28 | the saved registers and the callee-saved ones partition x1..x31 |
| VectoredTraps.VectoredReturns | fw/bsp/env/ventry.S:10-56 | all registers come back and machine mode is set when the handler keeps the callee-saved ones; mepc is the handler's |
| VectoredTraps.VectoredIsUsable | fw/bsp/env/ventry.S:10-54 | the table of ventry.S makes entry and exit programs |
| VectoredTraps.VectoredNesting | fw/bsp/env/ventry.S:10-56 | with vectored traps nested to any depth, wherever they resume, registers and memory from sp up come back, but mepc is where the last of all of them was taken |
| VectoredTraps.OneNestedTrap | fw/bsp/env/ventry.S:10-56 | one trap inside an empty handler: the outer code resumes at the inner pc |
| Heap.Break.Sbrk | fw/bsp/libwrap/sys/sbrk.c:6-17 | the new break or an unchanged one, by the wrapped pointer comparison |
| Heap.Break.Malloc | fw/bsp/libwrap/stdlib/malloc.c:6-13 | the old break or 0 |
| Heap.GrantedIffFits | fw/bsp/libwrap/sys/sbrk.c:12-13 | a request is granted exactly when it fits, if and only if the addition does not wrap back into the heap |
| Heap.HugeRequestShrinks | fw/bsp/libwrap/stdlib/malloc.c:6-13 | a concrete huge request that succeeds and moves the break down |
| Heap.Break.MallocAll | fw/bsp/libwrap/stdlib/malloc.c:6-13 | any run of calls, from any break, with requests that together with the size of the heap stay below 2^32: what fits is granted, what does not fails and leaves the break |
| Heap.BreakIsTotal | fw/bsp/libwrap/sys/sbrk.c:15-16 | the break is the start plus the granted bytes and stays in the heap |
| Heap.BlocksDisjoint | fw/bsp/libwrap/sys/sbrk.c:15-16 | granted blocks are pairwise disjoint and inside what was left of the heap |
| Plic.OneBit | fw/bsp/drivers/plic/plic_driver.c:75-77 | one bit set or cleared is one pair added or removed, all other pairs unchanged |
| Plic.BitIsNumbered | fw/bsp/drivers/plic/plic_driver.c:76 | the bit of a source is number source mod 8 of its byte |
| Plic.ThresholdWords | fw/bsp/drivers/plic/plic_driver.c:59-61 | the threshold words are 0x1000 apart from 0x200000 on, disjoint, above all enables |
| Plic.EnableByteInjective | fw/bsp/drivers/plic/plic_driver.c:71-74 | enable bytes of different harts are different bytes, below the thresholds |
| Plic.Controller.EnableInterrupt | fw/bsp/drivers/plic/plic_driver.c:68-79 | adds the pair; the byte at 0x2000 + 0x80*hart + source/8 goes up by 2^(source mod 8) if the pair was absent, no other byte changes |
| Plic.Controller.DisableInterrupt | fw/bsp/drivers/plic/plic_driver.c:81-92 | removes the pair; that byte goes down by as much if the pair was present, no other byte changes |
| Plic.Controller.RunOps | fw/bsp/drivers/plic/plic_driver.c:68-92 | any sequence of calls by any harts represents the set they describe; no byte but the addressed ones changes |
| Plic.LastCallDecides | fw/bsp/drivers/plic/plic_driver.c:68-92 | of each pair the last call about it decides |
| PlicHarts.StepInv | fw/bsp/drivers/plic/plic_driver.c:75-90 | every load and store of every hart keeps loaded bytes current and the bits equal to the finished calls |
| PlicHarts.NoUpdateLost | fw/bsp/drivers/plic/plic_driver.c:68-92 | any interleaving of loads and stores of different harts: no update is lost, each hart's calls finish in its order |
| PlicHarts.TrapLosesUpdate | fw/bsp/drivers/plic/plic_driver.c:75-90 | a trap handler that enables or disables another source of the same byte between load and store loses its update unless it changes nothing |
| PlicHarts.ScheduleDoesNotMatter | fw/bsp/drivers/plic/plic_driver.c:68-92 | a hart that is done has exactly the bits its own calls alone would leave, under every schedule |
| Plic.Controller.MemZero | fw/bsp/drivers/plic/plic_driver.c:13-19 | exactly the given bytes become 0 |
| Plic.Controller.Init | fw/bsp/drivers/plic/plic_driver.c:21-53 | zeroes exactly the enable bytes of sources 0..n and the threshold word of the calling hart, and priority words 0..n, each at its address |
| Plic.InitRepresents | fw/bsp/drivers/plic/plic_driver.c:33-38 | whole bytes: sources up to the next multiple of eight go off, no other pair does |
| Plic.Controller.SetPriority | fw/bsp/drivers/plic/plic_driver.c:94-103 | one word, only with priorities, no enable bit moves |
| Plic.Controller.SetThreshold | fw/bsp/drivers/plic/plic_driver.c:55-65 | the word at 0x200000 + 0x1000*hart only |

## Left out

- TrimSearch.SetHfrosctrimForFCpu: RTC_FREQ is a parameter; how the cycle counter follows the selected clock is left to the environment.
- Counters.ReadWide: the form of `get_timer_value` for targets that are not 32-bit, a single read of the low word.
- Printf.Vprintfmt: decrementing a width of the least int is done in unbounded integers.
- Trap.Hart.Execute: the stack does not wrap at the end of the address space; RV32 word size; `call` and `mret` are the boundaries of the run.
- PlicHarts.NoUpdateLost: traps inside a call; `PlicHarts.TrapLosesUpdate` says what one does.
- Plic.Controller.Init: parameters above the PLIC's maximum source and target, on which the driver has no checks.
- Claim and complete of the PLIC: single register accesses.
- The CLIC driver, `read`, the system call stubs, `_exit`, `start.S`, linker scripts and make files.
- The vector table of `ventry.S` and the dispatch inside `handle_trap`.
- `src/` and `pysysc/`: SystemC wiring and configuration; the instruction set simulator is not part of this model.
- The disabled floating-point conversion of `printf.c`, and variadic calling conventions: arguments are a sequence.
- Oscillator physics, caches and weak memory ordering.
