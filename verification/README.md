# Verified model of the inverter controller

A Dafny model of the parts of the controller whose guarantees must survive failed writes, failed saves and crashes, and
of the protocol code under them.

- **Storm charge** (`StormCharge`, `StormInvariant`, `StormTheorems`, `StormRecovery`, `StormSessions`, `StormHistory`,
  `StormDecisions`, `StormManager`).
  A session captures nine words of the inverter (0xE01D, 0xE205, 0xE026 to 0xE02C), saves an undo record, overwrites the
  words, and later puts them back. `StormCharge` is a machine that takes one I/O action per step: one word write, which
  succeeds, fails, or fails after reaching the device, or one save of the state file, which succeeds or leaves the old
  file. A crash may fall between any two actions. `StormInvariant` gives the inductive invariant, `StormTheorems` and
  `StormRecovery` what it means over whole runs, `StormDecisions` what each call decides over the numbers it is given, and
  `StormManager` the manager as a class whose methods are proved to take exactly the machine's steps. The machine's fields `session`, `captured`, `origin` and `dirty` only observe.
- **RTU frames** (`Rtu`, `LinearRegister`, `CrcDetection`, `CrcPeriod`, `CrcDistance`, `RtuTransport`). The CRC-16 of
  section 6.2.2 of the MODBUS over Serial Line Specification and Implementation Guide V1.02, framing, error detection, and
  reassembly of a response from the pieces of a TCP stream. `LinearRegister` is the theory of linear shift registers over
  an arbitrary type, so that bit-vectors are needed only for the laws of the one register; `CrcPeriod` finds its period by
  squaring and by the factors of 32767.
- **Reading** (`ReadPlan`, `Poller`, `HoldingRegisters`). The merge of registers into ranges, the poll cycle that reads the
  ranges and cuts them back into registers, and verified block writes.
- **Values** (`Registers`, `InverterClock`). The register codec and the packed clock.
- **Thresholds** (`Thresholds`). The guard that keeps cut-off, alarm, stop and start of discharge in order although each
  is written by itself.
- **Publishing** (`Publisher`). The cache that keeps a value from being published twice.
- **Telemetry** (`TelemetryStore`). The store and the switch events derived from its history.

## Assumptions

- Nobody else writes the nine words while a session is on (`StormCharge.Next`, event `Outside`), the thresholds, or the
  state topics. Calls of one component do not overlap.
- Telemetry may say anything. Only the exact restore of the words of before (`SessionUndoneExactly`, `CaptureIsExact`)
  needs it to agree with the device at the capture, and states the bounds within which it holds.
- Numbers are reals where the program uses floats, and are compared exactly.
- A broker keeps the last payload of each topic that reaches it. A publish may reach it, be lost with or without the
  publisher noticing, or reach it after the publisher gave up: QoS 0 has no acknowledgement.

## Where the code does less than it seems to

- `resumePending` is cleared only where a resumption succeeds (internal/stormcharge/manager.go:347), so it can outlive its
  session. `FlagIsHistory` says what it means, `ModbusLossByHistory` when losing Modbus is acted on, and
  `StaleResumeFlagOccurs` gives a run in which it is not.
- A captured value outside its write bounds can be captured but never restored: `StuckSession` gives such a run, and
  `SessionCanEnd` the exact condition.
- A threshold write that reaches the device, reports an error and cannot be verified leaves the store behind the device,
  until a poll reads the setting (`PollAgreesIff`); `AgreementKeptIff` gives the exact condition and `LostWriteDisorders` a
  run that breaks the order.
- A publish that times out and is delivered later leaves an older value in the cache than on the broker, and one that is
  reported as done but dropped a newer one; `PublishConsistentIff` gives the exact condition and
  `MisleadingPublishGoesStale` runs.
- A register that ends at the last address, 0xFFFF, and touches another one is left unread or read twice, since the merge
  adds address and count in 16 bits; `PlanIsExactIff` gives the exact condition and `TopNotRead` an example. The catalog
  has no such register.
- A response longer than the 256-byte buffer makes `Send` slice out of range; the model gives it an outcome of its own
  (`OutOfRange`), `OverrunIff` the exact condition and `OverrunRequest` an example. The limits of the client library, 125
  registers and 2000 coils, keep such requests from being sent; the library is not part of this model.

A batch with one id twice would give a switch event the first charge of the batch where the store has the last one
(`SocInForceIff`, `DuplicateSocDiffers`). The program makes no such batch: internal/modbus/service.go:120, 139 and 144 store
one value at a time, and line 530 what a poll yields, in which no id occurs twice (`PollIdsDistinct`).

## Model

| member | source | states |
|---|---|---|
| `StormInvariant.InvKept` | internal/stormcharge/manager.go:163-504 | Every event of a run (a call, one write or save with any outcome, a crash, a boot, an outside write while no session is on) keeps the invariant: file, memory, undo progress and enable bit stay consistent |
| `StormInvariant.StepKept` | internal/stormcharge/manager.go:376-446 | One I/O action with any outcome keeps file and memory describing one and the same session |
| `StormInvariant.CheckSessionOutcome` | internal/stormcharge/manager.go:353-374 | The last checks of an evaluation leave the session alone or begin a restore whose final phase is the one its reason calls for |
| `StormInvariant.StormWriteSafe` | internal/stormcharge/manager.go:390-398 | Writing the next storm word keeps the enable word off unless all slots are the storm schedule |
| `StormInvariant.UndoWriteSafe` | internal/stormcharge/manager.go:448-471 | Undoing a session that found charging disabled disables it first, and until then touches no slot |
| `StormInvariant.UndoIndexCovers` | internal/stormcharge/manager.go:406-425 | A restore gives every one of the nine words its turn, whichever way the schedule is ordered |
| `StormTheorems.RunKeepsInv` | internal/stormcharge/manager.go:163-628 | The invariant holds in every state that any run reaches |
| `StormTheorems.UndoLogSafety` | internal/stormcharge/manager.go:195-233 | Undo-log safety over all runs: while a storm write may have left its mark, the file holds the active session with exactly the captured values and a whole seven-word schedule |
| `StormTheorems.SessionEndsRestored` | internal/stormcharge/manager.go:426-446 | No run ends a session unless all nine words are the captured ones, and the phase recorded is the one for the recorded reason |
| `StormTheorems.OnlyStoppingEnds` | internal/stormcharge/manager.go:433-446 | The only action that ends a session on disk is the last save of a restore in which nothing failed |
| `StormTheorems.EnableSafety` | internal/stormcharge/manager.go:390-411 | Enable-bit safety over all runs: in a session that found timed charging disabled, a non-zero enable word implies that all six slot words are the storm schedule |
| `StormTheorems.DeadlineKept` | internal/stormcharge/manager.go:196-205 | Over all runs the deadline of a session that is not restoring is start plus timeout, in memory and on disk, and storm words are written only for a call made before it |
| `StormTheorems.SessionConstant` | internal/stormcharge/manager.go:486-504 | Within one session capture, start and settings never change on disk, and an ended session does not come back |
| `StormTheorems.RestoreRatchet` | internal/stormcharge/manager.go:318-325 | From every reachable state in which a session is active and restoring, no continuation without a crash writes storm settings until another session is recorded |
| `StormTheorems.RestoreRatchetOnDisk` | internal/stormcharge/manager.go:588-610 | From every reachable state whose file has an active, restoring session, no run of crashes, boots, evaluations and cancellations writes storm settings for that session |
| `StormRecovery.UndoCompletes` | internal/stormcharge/manager.go:400-446 | A restore in which nothing fails runs to its end from any of its writes |
| `StormRecovery.CallRollsBack` | internal/stormcharge/manager.go:400-446 | A call that begins a restore, followed by successful I/O, rolls the session back: nine captured words, inactive in memory and on disk, final phase of the reason |
| `StormRecovery.Convergence` | internal/stormcharge/manager.go:318-325 | From every reachable restoring state, whatever the mix of words on the device, one connected evaluation without failures rolls the session back |
| `StormRecovery.DeadlineEnds` | internal/stormcharge/manager.go:327-333 | The first connected evaluation at or after the deadline, if nothing fails, ends the session; a fault in the telemetry makes no difference |
| `StormRecovery.RecoveryFromAnywhere` | internal/stormcharge/manager.go:239-247 | From any point of any run with a session on disk: crash, boot, cancel, and the captured words are back |
| `StormRecovery.SessionCanEnd` | internal/stormcharge/manager.go:376-446 | A session can be ended by some continuation if and only if the codec accepts every captured value |
| `StormRecovery.CaptureIsExact` | internal/stormcharge/manager.go:486-504 | What is captured from telemetry that agrees with the device is put back word for word if and only if the two settings are within their write bounds |
| `StormRecovery.MultipleIsExact` | internal/registers/catalog.go:2082-2116 | On a register stepped by its own scale from zero the codec writes back exactly the multiples within bounds |
| `StormRecovery.CutoffIsExact` | internal/stormcharge/manager.go:413-425 | The captured cut-off is written back as the same word if and only if it is at most 100 |
| `StormRecovery.MainsIsExact` | internal/stormcharge/manager.go:413-425 | The captured mains current is written back as the same word if and only if it is at most 1200 tenths |
| `StormSessions.SessionUndoneExactly` | internal/stormcharge/manager.go:163-247 | A session begun with honest, in-bounds telemetry can always be undone exactly: after anything at all, a crash, boot and cancel restore the very nine words from before it |
| `StormSessions.StormWordsAreImage` | internal/stormcharge/manager.go:376-398 | The words a session writes are target, limit in tenths, three slots from 00:01 to 23:59 and the enable, all accepted by the codec |
| `StormSessions.ApplyCompletes` | internal/stormcharge/manager.go:376-398 | Storm writes that all succeed put the whole storm image on the device |
| `StormSessions.StartCompletes` | internal/stormcharge/manager.go:163-237 | A start in which nothing fails ends charging, with the storm image on the device and the session on disk |
| `StormHistory.FlagStep` | internal/stormcharge/manager.go:296-352 | Which events change the resumption flag: a crash and the last write of a successful resumption clear it, a boot sets it to whether the file has a session, and nothing else touches it |
| `StormHistory.FlagIsHistory` | internal/stormcharge/manager.go:588-610 | Over all runs the flag of a running process says that it came up with a session in the file and has completed no resumption since |
| `StormHistory.ModbusLossByHistory` | internal/stormcharge/manager.go:303-317 | Losing Modbus moves a charging session to restoring if and only if the process came up without a session in the file or has completed a resumption since |
| `StormSessions.StaleResumeFlag` | internal/stormcharge/manager.go:334-352 | The pending flag outlives its session: after crash, boot, cancel and a new start, losing Modbus leaves the new session charging |
| `StormHistory.StaleResumeFlagOccurs` | internal/stormcharge/manager.go:334-352 | A run in which this happens |
| `StormHistory.StuckSession` | internal/stormcharge/manager.go:486-504 | A run that records a session which no continuation ends: the captured mains current, 130 A, is outside its write bounds |
| `StormDecisions.StartAcceptedIff` | internal/stormcharge/manager.go:163-205 | A start begins a session if and only if none is active, target, current and timeout are within their bounds, the charge is known and below the target, the three voltages and the frequency are within theirs, a known positive battery limit is respected, and the settings to capture are known; otherwise it changes nothing |
| `StormDecisions.StartRecordSaved` | internal/stormcharge/manager.go:195-211 | A start whose undo record cannot be saved leaves no session and touches no word |
| `StormDecisions.EvaluateDecides` | internal/stormcharge/manager.go:353-374 | In every reachable state an evaluation leaves a session that is due for its checks alone if and only if both fault codes are absent or zero, the grid is there, and the charge is missing or below the target; otherwise it ends it, failed for the first fault, else cancelled for the grid, else completed at the target, with the captured words back if they can be written and the I/O succeeds |
| `StormDecisions.EvaluateWaits` | internal/stormcharge/manager.go:300-337 | An evaluation changes nothing without a session, without Modbus while a resumption is due or a restore under way, or before the deadline without all required telemetry |
| `StormDecisions.DeadlineAndCancel` | internal/stormcharge/manager.go:239-333 | From start plus timeout on an evaluation ends the session as timed out, and a cancellation ends it as cancelled, with the captured words back if they can be written and the I/O succeeds |
| `StormDecisions.LostThenFailed` | internal/stormcharge/manager.go:303-325 | A session that loses Modbus touches no word until Modbus is back, and is then restored and ended as failed |
| `StormDecisions.ResumeCompletes` | internal/stormcharge/manager.go:338-374 | In every run an evaluation that resumes a session and whose writes succeed writes the whole storm image again and goes on exactly as an evaluation of the session at rest, whatever becomes of its save |
| `StormDecisions.FailedResumeRestores` | internal/stormcharge/manager.go:339-346 | A resumption that fails to write leaves the session restoring, to be ended as failed |
| `StormDecisions.FailedStartRollsBack` | internal/stormcharge/manager.go:211-221 | A start in which a storm write fails restores the captured words and ends the session as failed, if nothing else fails but perhaps one save |
| `StormDecisions.UnsavedStartRollsBack` | internal/stormcharge/manager.go:226-234 | So does a start whose last save fails |
| `StormDecisions.RestoreGoesOn` | internal/stormcharge/manager.go:400-411 | A restore whose first save fails goes on with the schedule all the same |
| `StormDecisions.UndoOrder` | internal/stormcharge/manager.go:406-425 | Schedule first, its enable word before the slots if it was disabled and after them if not, then mains limit and cut-off |
| `StormDecisions.FailedUndoGoesOn` | internal/stormcharge/manager.go:406-431 | After a failed schedule write the mains limit and the cut-off are tried all the same, and the session stays as it is |
| `StormDecisions.LastUndoEnds` | internal/stormcharge/manager.go:433-446 | When all writes succeeded the session ends in the phase asked for, without a deadline; if that cannot be saved it is active and restoring again |
| `StormDecisions.BootDecides` | internal/stormcharge/manager.go:588-610 | A process comes up if and only if there is no file or a readable one of version 2, or of version 1 without a session, and has the record of the file |
| `StormManager.PerformedIsRun` | internal/stormcharge/manager.go:163-446 | The I/O actions that the manager logs are a run of the machine |
| `StormManager.EveryPointIsSafe` | internal/stormcharge/manager.go:163-446 | Between any two I/O actions of any call of the manager the invariant holds |
| `StormManager.ScheduleStep` | internal/stormcharge/manager.go:448-471 | Each write of the schedule loop is the write that the machine makes next |
| `StormManager.SettingStep` | internal/stormcharge/manager.go:413-425 | Each write of the restore loop over the two settings is the write that the machine makes next |
| `StormManager.Manager.Load` | internal/stormcharge/manager.go:588-610 | A new process takes the session from the file, active ones to be resumed, old versions upgraded, exactly as the machine boots |
| `StormManager.Manager.SaveLocked` | internal/stormcharge/manager.go:612-628 | A save takes the machine's next action: the file becomes the runtime or stays as it was |
| `StormManager.Manager.WriteTimedChargeSchedule` | internal/stormcharge/manager.go:448-471 | Seven words, disabling first or enabling last, stopping at the first failure, exactly as the machine writes them |
| `StormManager.Manager.ApplyStormSettings` | internal/stormcharge/manager.go:376-398 | Writes the storm words in order up to the first failure, exactly as the machine does |
| `StormManager.Manager.RestoreLocked` | internal/stormcharge/manager.go:400-446 | Tries every write of a restore, and ends the session only if none failed and the last save succeeded |
| `StormManager.Manager.Start` | internal/stormcharge/manager.go:163-237 | Checks, capture, undo record, storm words, record: the I/O it performs is a run of the machine from the same call, ending at rest |
| `StormManager.Manager.Cancel` | internal/stormcharge/manager.go:239-247 | Ends the session or leaves it restoring; its I/O is a run of the machine from the same call |
| `StormManager.Manager.Evaluate` | internal/stormcharge/manager.go:296-374 | All branches of the periodic evaluation; its I/O is a run of the machine from the same call, of which `StormDecisions` says what it decides |
| `Rtu.CalculateCRC` | internal/modbus/rtu_tcp.go:198-211 | The nested loops compute the CRC-16 of the data, byte by byte and bit by bit |
| `Rtu.GuideExample` | internal/modbus/rtu_tcp.go:198-211 | The worked example of section 6.2.2 of the serial line guide: the frame 02 07 has the check 1241 hexadecimal, sent as 41 12 |
| `Rtu.GuideFrame` | internal/modbus/rtu_tcp.go:73-84 | The frame 02 07 41 12 is accepted, and 02 07 12 41 is not |
| `Rtu.AppendCRC` | internal/modbus/rtu_tcp.go:188-192 | The last two bytes become the low and the high byte of the CRC of the rest, which stays as it was |
| `Rtu.Encode` | internal/modbus/rtu_tcp.go:49-61 | Succeeds for exactly the PDUs that fit in 256 bytes, and Decode gives the same PDU back |
| `Rtu.JoinParts` | internal/modbus/rtu_tcp.go:188-196 | A CRC split into its low and high byte is read back whole |
| `CrcDetection.CrcIsLinear` | internal/modbus/rtu_tcp.go:198-211 | The CRC register is linear, loses nothing in a shift, and mixes a word in bit by bit |
| `CrcDetection.CrcIsFeed` | internal/modbus/rtu_tcp.go:198-211 | Bytewise CRC is the register fed with the bits of the frame in sending order |
| `CrcDetection.HighByteInPlace` | internal/modbus/rtu_tcp.go:198-211 | Eight shifts of a byte in the high position leave that byte |
| `CrcDetection.TrailerIsRegister` | internal/modbus/rtu_tcp.go:73-84 | Reading a trailer leaves the register at zero if and only if the trailer was the register |
| `CrcDetection.AcceptedMeansZero` | internal/modbus/rtu_tcp.go:73-84 | Decode accepts a frame if and only if it has four bytes and its whole CRC, trailer included, is zero |
| `CrcDetection.BurstDetected` | internal/modbus/rtu_tcp.go:73-84 | Two accepted frames of any length that agree outside a window of sixteen bits agree in it: every burst of up to sixteen bits is detected |
| `CrcDetection.AdjacentBytesDetected` | internal/modbus/rtu_tcp.go:73-84 | Changing any one byte or any two adjacent bytes of an accepted frame of any length, CRC included, makes Decode reject it |
| `CrcDetection.CrcKeepsParity` | internal/modbus/rtu_tcp.go:198-211 | Each bit step of the CRC keeps the parity of the register |
| `CrcDetection.AcceptedIsEven` | internal/modbus/rtu_tcp.go:73-84 | Every accepted frame has an even number of one bits |
| `CrcDetection.OddErrorsDetected` | internal/modbus/rtu_tcp.go:73-84 | Flipping any odd number of bits of an accepted frame makes Decode reject it |
| `CrcPeriod.SquareOfPower` | internal/modbus/rtu_tcp.go:198-211 | Squaring a power of x modulo the polynomial doubles its exponent |
| `CrcPeriod.PeriodIff` | internal/modbus/rtu_tcp.go:198-211 | Shifting the register from its top bit returns to it exactly after multiples of 32767 shifts |
| `CrcPeriod.LowBitReturnsIff` | internal/modbus/rtu_tcp.go:198-211 | The same from its low bit |
| `LinearRegister.TwoOnesUnnoticedIff` | internal/modbus/rtu_tcp.go:198-211 | Two ones d apart go unnoticed exactly when d shifts bring the register back to one |
| `CrcDistance.AcceptedIffUnnoticed` | internal/modbus/rtu_tcp.go:73-84 | A frame of the length of an accepted one is accepted exactly when the register, from zero, does not notice their difference |
| `CrcDistance.TwoFlipsDetectedIff` | internal/modbus/rtu_tcp.go:73-84 | Two flipped bits in an accepted frame of any length are detected if and only if their distance is no multiple of 32767 |
| `CrcDistance.DistanceFour` | internal/modbus/rtu_tcp.go:73-84 | Two different accepted frames of one length, up to 4095 bytes, differ in at least four bits: one, two or three flipped bits are always detected |
| `LinearRegister.WordIsItsBits` | internal/modbus/rtu_tcp.go:198-211 | Mixing a word in and shifting it out is the same as reading its bits one by one |
| `LinearRegister.TrailerResidue` | internal/modbus/rtu_tcp.go:194-211 | A linear register ends at zero after a two-part trailer exactly when it equals the trailer |
| `LinearRegister.UnnoticedInWindow` | internal/modbus/rtu_tcp.go:198-211 | Two readings that differ only in a window and both end at zero differ by a pattern that the register, from zero, does not notice |
| `LinearRegister.ShortPatternNoticed` | internal/modbus/rtu_tcp.go:198-211 | A register that shows every dropped one for k bits notices every pattern of up to k + 1 bits |
| `RtuTransport.RtuResponseLength` | internal/modbus/rtu_tcp.go:162-186 | The length is 8 for a write that is echoed or acknowledged, 10 for a mask, 5 and two per register for a read of registers, and 5 and the bytes that the coils fill for a read of coils |
| `RtuTransport.LegalResponseFits` | internal/modbus/rtu_tcp.go:162-186 | For the counts that the protocol allows the expected length is at most 255, within the 256-byte buffer |
| `RtuTransport.OverrunIff` | internal/modbus/rtu_tcp.go:162-186 | The expected length exceeds the buffer if and only if more than 125 registers or more than 2008 coils are asked for |
| `RtuTransport.OverrunRequest` | internal/modbus/rtu_tcp.go:103-116 | A request and an answer to it for which the slice of the buffer is out of range, however the answer arrives |
| `RtuTransport.OneResponseReturned` | internal/modbus/rtu_tcp.go:103-137 | A stream that carries one response and no more is returned whole and leaves nothing for the next request |
| `RtuTransport.RespondsInFull` | internal/modbus/rtu_tcp.go:162-186 | The expected length is that of every normal response laid out field by field: byte count and data, or the echoed part of the request |
| `RtuTransport.ExchangeRecoversPdu` | internal/modbus/rtu_tcp.go:73-137 | Whatever conforming PDU a device frames is returned as that frame, which decodes to that PDU, however the stream is cut; less than the whole frame is a failure |
| `RtuTransport.EchoReturned` | internal/modbus/rtu_tcp.go:103-137 | A write of one register or coil that is answered by its own echo returns just that echo, and less of it is a failure |
| `RtuTransport.StrangersRefused` | internal/modbus/rtu_tcp.go:103-135 | Fewer than four bytes, and bytes of another function, are a failure |
| `RtuTransport.Transport.ReadAtLeast` | internal/modbus/rtu_tcp.go:103-108 | Reads until enough is there or the stream ends; buffer and rest of the stream together never change |
| `RtuTransport.Transport.Receive` | internal/modbus/rtu_tcp.go:103-137 | Whether there is a reply, and of which kind, depends on the bytes alone and not on their fragmentation; a reply is a prefix of the stream |
| `RtuTransport.Transport.Send` | internal/modbus/rtu_tcp.go:86-138 | The same for a whole exchange: a failure to connect, write or read ends with the connection closed and nothing held, a deadline that cannot be set leaves it as it was |
| `ReadPlan.BuildReadPlanForRegisters` | internal/registers/catalog.go:1793-1832 | For any registers the plan has each once, in an order of address; and unless one at the top of the address space touches another, its ranges read their words and no others, with an unread address between any two |
| `ReadPlan.Merge` | internal/registers/catalog.go:1803-1831 | The loop, with its 16-bit sums, computes the plan about which the following rows speak |
| `ReadPlan.PlanKeepsOrder` | internal/registers/catalog.go:1803-1831 | The ranges of the plan, one after the other, have exactly the given registers in their order, whatever they are |
| `ReadPlan.PlanIsExactIff` | internal/registers/catalog.go:1793-1832 | For registers in order of address, each with a word and within the address space, the plan is exact if and only if none that ends at the last address touches another |
| `ReadPlan.TopNotRead` | internal/registers/catalog.go:1811-1819 | Of two registers side by side at the top the second is never read, since its end wraps to zero |
| `ReadPlan.PlanReadsExactly` | internal/registers/catalog.go:1793-1832 | An address is read by the plan if and only if it belongs to one of the registers |
| `ReadPlan.PlanIsMinimal` | internal/registers/catalog.go:1793-1832 | No set of intervals covering the same addresses is smaller than the plan |
| `ReadPlan.WordsFromBytes` | internal/registers/catalog.go:1834-1849 | Fails exactly for odd or short payloads, and otherwise gives the words, the high byte first |
| `ReadPlan.WordsOfBytes` | internal/registers/catalog.go:1834-1849 | Words survive the way into bytes and back |
| `ReadPlan.BytesOfWords` | internal/registers/catalog.go:1834-1849 | An even number of bytes survives the way into words and back |
| `Poller.DecodeRange` | internal/modbus/service.go:504-521 | The registers of a range are cut from its words one after the other, errors kept apart from values |
| `Poller.PollGroup` | internal/modbus/service.go:463-543 | Tries ranges until the connection fails to open twice in a row, and reports the values and errors of the ranges tried: connected iff there are values and no errors, degraded by just the errors iff there are both, failed and never without an error iff there are no values |
| `Poller.TriedIsFirst` | internal/modbus/service.go:463-483 | A cycle tries every range up to the first two failures to connect in a row |
| `Poller.ErrorsNameRanges` | internal/modbus/service.go:463-502 | The errors name exactly the ranges that were reached and could not be connected to, could not be read, or came back odd or short; the cycle says that it gave up exactly when two ranges in a row could not be connected to |
| `Poller.ConnectedIff` | internal/modbus/service.go:529-542 | When every range is answered the cycle is connected if and only if there are registers and each decodes, and has failed if and only if none does |
| `Poller.EachCounted` | internal/modbus/service.go:504-521 | A register read alone gives a value, or an error with its address exactly if it cannot be decoded |
| `Poller.BatchedIsAlone` | internal/modbus/service.go:470-527 | When every range is answered the cycle yields exactly what reading every planned register alone yields, in order, with no other errors |
| `Poller.PartialPoll` | internal/modbus/service.go:470-527 | Whatever fails, every value yielded is decoded from the register's own words as they were at the read of its range |
| `Poller.NeverOverflows` | internal/modbus/service.go:504-510 | No response makes the range-decode-overflow branch run |
| `Poller.EachOnce` | internal/modbus/service.go:504-521 | Unless a register cannot be decoded, each is there exactly once, at its place |
| `Poller.CatalogPoll` | internal/modbus/service.go:470-527 | With the catalog's decoder: one value per register, each the decoding of its own words |
| `Poller.PollIdsDistinct` | internal/modbus/service.go:504-530 | Whatever is answered, a cycle over registers with different ids hands the store no id twice |
| `HoldingRegisters.BlockRequest` | internal/modbus/service.go:206-214 | The request, single or multiple, puts the values at the address and changes nothing else |
| `HoldingRegisters.WriteHoldingWords` | internal/modbus/service.go:185-239 | Reports success exactly when the write was acknowledged and the readback begins with the values |
| `HoldingRegisters.EchoesIff` | internal/modbus/service.go:221-233 | A readback passes if and only if it is even, long enough, and has every value in its place, the high byte first |
| `HoldingRegisters.SuccessIsOnDevice` | internal/modbus/service.go:221-233 | An honest readback passes if and only if the device holds the values |
| `HoldingRegisters.ReadHoldingWords` | internal/modbus/service.go:152-181 | Fails exactly for a zero count, no connection, no answer, or an odd or short payload; otherwise exactly count words |
| `Registers.JoinHalves` | internal/registers/catalog.go:1945-1951 | Two words make the 32-bit value of which they are the halves, in the register's word order |
| `Registers.DecodesIff` | internal/registers/catalog.go:1851-1943 | Decoding fails exactly for too few words |
| `Registers.DecodedRaw` | internal/registers/catalog.go:1924-1951 | The raw value of a decoded register is its word, or the signed number congruent to it, or has its two words as halves in the register's order, or is the signed number congruent to that |
| `Registers.DecodedLabel` | internal/registers/catalog.go:1872-1884 | A packed time is shown by its two bytes if they are an hour and a minute, and an enumerated value by its label |
| `Registers.DecodedNumber` | internal/registers/catalog.go:1885-1893 | A number is shown as the multiple of a unit of its last place nearest to raw value times scale, or without decimals as the integer it is close to |
| `Registers.RoundIsNearest` | internal/registers/catalog.go:2019-2022 | Rounding gives the nearest integer, halves away from zero, and no other integer is that |
| `Registers.EncodedIff` | internal/registers/catalog.go:2082-2116 | A number is encoded as a word if and only if the register can be written, has one word, finds it within bounds and on some step, and the word is the integer nearest to it divided by the scale; text counts as its number |
| `Registers.AcceptableIff` | internal/registers/catalog.go:2173-2190 | The check of the nearest step accepts exactly what is within the tolerance of any step, and bounds hold unless both are zero |
| `Registers.EnumEncodesIff` | internal/registers/catalog.go:2118-2152 | An enumerated register takes a number for the value it is cut down to, and text for a label or, where no label reads like that, for the integer it parses to |
| `Registers.DecodeThenEncode` | internal/registers/catalog.go:2082-2116 | A decoded word is encoded to itself if and only if it is non-negative, in bounds and on the step grid (for scales above the tolerance) |
| `Registers.EncodeThenDecode` | internal/registers/catalog.go:2173-2190 | Every accepted number is read back within 1e-6 of what was asked |
| `Registers.DecodedNumberExact` | internal/registers/catalog.go:1885-1893 | Where the precision shows the scale exactly, decoding loses nothing |
| `Registers.EncodedMultiple` | internal/registers/catalog.go:2104-2115 | A multiple of the scale is encoded as that multiple, or refused by bounds, step or width |
| `Registers.StepDistance` | internal/registers/catalog.go:2180-2187 | The nearest step is the value itself exactly when the value lies on the step grid |
| `Registers.DigitsDenote` | internal/registers/catalog.go:2031-2036 | The digits shown for an unknown value of an enumeration denote that value |
| `Registers.EnumRoundTrip` | internal/registers/catalog.go:2118-2152 | With distinct labels a known word of an enumeration is written back as itself, and an unknown one is refused unless a label reads just like the text shown for it |
| `Thresholds.EncoderKeepsBounds` | internal/registers/catalog.go:2173-2178 | What the encoder accepts for a threshold is within 0 to 100, or 1 to 100 for the start |
| `Thresholds.GuardIsOrder` | internal/modbus/service.go:242-311 | From settings in order the guard accepts exactly the writes that leave them in order; its 16-bit sums do not wrap there |
| `Thresholds.Service.ValidateWrite` | internal/modbus/service.go:244-311 | The guard, looking settings up in the order and with the errors of the source |
| `Thresholds.Service.CurrentRegisterRaw` | internal/modbus/service.go:313-367 | The stored value first, the device otherwise |
| `Thresholds.Service.WriteRegister` | internal/modbus/service.go:51-148 | New device and store after a write with any I/O; success means that both hold the written value |
| `Thresholds.Service.Poll` | internal/modbus/service.go:527-528 | A poll stores the device's value of every setting that it read, adds no other, and leaves the rest as it was |
| `Thresholds.PollAgreesIff` | internal/modbus/service.go:527-528 | After a poll store and device agree if and only if they agreed on every stored setting that it missed |
| `Thresholds.AgreementKeptIff` | internal/modbus/service.go:91-147 | A request keeps store and device in agreement if and only if it was neither lost without verification nor ignored without readback |
| `Thresholds.OrderKept` | internal/modbus/service.go:244-311 | As long as the store agrees with the device no request disorders the settings, whatever its I/O |
| `Thresholds.SucceedsIffOrdered` | internal/modbus/service.go:51-148 | From settings in order, and whatever the I/O: a request goes out if and only if it leaves them in order, and succeeds if and only if in addition the device then has the value, that is acknowledged or verified, and it can be read back; what device and store are then |
| `Thresholds.AnyOrderReached` | internal/modbus/service.go:51-148 | Any settings in order are on the device after as many requests that get through as settings differ, so at most four |
| `Thresholds.OrderAlways` | internal/modbus/service.go:51-311 | Over all runs of writes and polls with clear failures the order holds and the store agrees with the device |
| `Thresholds.LostWriteDisorders` | internal/modbus/service.go:91-112 | A write that is lost and cannot be verified lets a later write break the order |
| `Thresholds.Connected` | internal/modbus/service.go:242-311 | Between any two orders there is a path of accepted writes that touches each differing setting once, so at most four |
| `Thresholds.NoShorterPath` | internal/modbus/service.go:242-311 | No path is shorter, accepted by the guard or not |
| `Publisher.Service.EnsureClient` | internal/mqtt/service.go:123-169 | Keeps the client for the same key, and otherwise starts with an empty cache, also after a failed connect |
| `Publisher.Service.PublishTelemetry` | internal/mqtt/service.go:462-477 | Publishes what the cache does not have, up to the first failure |
| `Publisher.Service.PublishStormCharge` | internal/mqtt/service.go:479-508 | The same for the storm-charge messages in any order of the map |
| `Publisher.Service.PublishCommandState` | internal/mqtt/service.go:658-677 | After a command: the echo, else the stored value, published whatever the cache says |
| `Publisher.Service.PublishCurrentValue` | internal/mqtt/service.go:679-695 | The first stored value with the id, or nothing |
| `Publisher.Service.ResetClient` | internal/mqtt/service.go:744-764 | A reset forgets client, key and cache |
| `Publisher.Service.Disconnect` | internal/mqtt/service.go:697-714 | The offline message goes out if the connection is open; client, key and cache are forgotten |
| `Publisher.CurrentValueIsFirst` | internal/mqtt/service.go:679-695 | The current value of a topic is the first one with that topic |
| `Publisher.DeliveredArrives` | internal/mqtt/service.go:462-477 | When every publish is delivered a call over different topics succeeds, and the client's broker and the cache have every value of it |
| `Publisher.PublishConsistentIff` | internal/mqtt/service.go:510-524 | A publish, whatever becomes of it, keeps the cache in agreement with the broker if and only if it is neither a late one that replaces a cached value nor a dropped one whose payload the broker does not have |
| `Publisher.PublishAllConsistentIff` | internal/mqtt/service.go:462-477 | A call over different topics keeps that agreement if and only if none of its publishes misleads in one of these two ways |
| `Publisher.StepConsistentIff` | internal/mqtt/service.go:123-153 | The same, in both directions, for every operation |
| `Publisher.ConsistentAlways` | internal/mqtt/service.go:123-153 | Over all runs in which no publish misleads, what the cache has is what the client's broker has |
| `Publisher.CachedIsUncachedIff` | internal/mqtt/service.go:462-477 | After a call that reports success the broker is as if the whole snapshot had been published without a cache, ids distinct or not, if and only if the cache still agrees with it; no other broker is touched |
| `Publisher.CachedIsUncached` | internal/mqtt/service.go:462-477 | That is so after every call that reports success and in which nothing misleads |
| `Publisher.AnyOrderWillDo` | internal/mqtt/service.go:479-508 | The storm-charge messages end up on the broker all together, in whatever order they went, unless one of them misleads |
| `Publisher.MisleadingPublishGoesStale` | internal/mqtt/service.go:510-524 | After a publish that comes late or is dropped a later successful call can leave an old value on the broker |
| `TelemetryStore.Store.UpsertTelemetry` | internal/state/store.go:68-89 | New values and switch events after a batch |
| `TelemetryStore.Store.SwitchEventFor` | internal/state/store.go:380-402 | The event of a switch, with the batch's first charge entry if it is a number and else the stored one |
| `TelemetryStore.StoreIsInForce` | internal/state/store.go:68-75 | The store holds, for every id, the last entry of the last batch that has one |
| `TelemetryStore.SwitchRecorded` | internal/state/store.go:68-89 | For every state and batch: a known machine state that becomes another known one sets the event of the grid if it now reads "AC Power Operation", that of the battery if it reads "Inverter Operation", with the time, charge and time of update of the batch, and everything else stays |
| `TelemetryStore.LastSwitchIsMostRecent` | internal/state/store.go:77-88 | After any history with distinct ids, each switch event is that of the most recent batch that moved the machine from another known state into that state, with the time and charge then in force; none if no batch did |
| `TelemetryStore.SocInForceIff` | internal/state/store.go:380-389 | Whatever came before, an event's charge is the one in force if and only if the batch's first entry for it, if a number, has the number of its last one |
| `TelemetryStore.DuplicateSocDiffers` | internal/state/store.go:380-389 | For comparison, a batch that contradicts itself and an event with a charge that was not in force |
| `InverterClock.ValidateIsGregorian` | internal/inverterclock/clock.go:118-130 | Validation accepts exactly the Gregorian dates and times of 2000 to 2099 |
| `InverterClock.BytePlaces` | internal/inverterclock/clock.go:56-93 | Year and month, day and hour, minute and second are the high and low bytes of the three words, the year counted from 2000, or from 1900 on reading 100 or more |
| `InverterClock.NormalizeKeepsDay` | internal/inverterclock/clock.go:123-129 | Normalising an overflowing date keeps its day number and ends on an existing date |
| `InverterClock.DayNumberInjective` | internal/inverterclock/clock.go:123-129 | An existing date is told by its day number, so the normal form is the only one |
| `InverterClock.WriteThenRead` | internal/inverterclock/clock.go:56-93 | What is encoded decodes to the same fields, marked valid; encoding fails for everything else |
| `InverterClock.ReadThenWrite` | internal/inverterclock/clock.go:56-93 | Encoding what was decoded from valid words gives them back, years counted from 1900 becoming two-digit, once |

## Left out

- `UpdatedAt` and `LastError` of the storm runtime, and the status view of a session: nothing branches on them.
- YAML encoding, file names and system calls: a save replaces the record of the runtime or leaves the old one.
- The `App` guards that check for a session and then act under separate locks: no outside write during a session is an
  assumption instead.
- Interleavings inside one locked method, the poll scheduler's timing and the watchdog.
- Sockets, the Modbus and MQTT client libraries, sleeps and reconnects: each read, write or publish succeeds or fails.
- `Verify`, which compares slave addresses of request and response.
- The unlock write before a register write, whose result the program ignores.
- Names, units, icons and other display data of registers, text rendering, and the case folding of enumeration labels,
  which are compared exactly.
- IEEE rounding, infinities and NaN.
- Number parsing: a text input carries the numbers that it parses to.
- `Registers.EncodeThenDecode`: for signed registers it speaks of words below 0x8000, since the encoder refuses negative
  raw values but lets larger words through that read back as negative.
- `Registers.DecodeThenEncode`: below a scale of 1e-6 it promises only that legal words are written back, since the
  tolerance of the step check then lets others through.
- Of the publisher: topic formatting, discovery messages, `discoveryKey` and the timer that decides on a reset; a reset may
  come at any time instead.
- Of the telemetry store: service status and the derived energy and power values.
- `ReadPlan.SortByAddress`: callers know only that it sorts and permutes, as of the library's sort.
- Of a poll: reopening the connection per range and the retry of a failed read; a response is what the retry left.
- HTTP handlers, the web interface, MQTT discovery, logging and serial port detection.
