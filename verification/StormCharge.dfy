/** The storm-charge session as a machine that takes one I/O action per step.

    A session captures nine words of the inverter, saves them to a file, overwrites them, and later puts them back.
    Between any two I/O actions the process may crash: what survives is the file and the inverter's words. */
module StormCharge {
  import opened Common
  import opened Registers

  // ----- the nine managed words -----

  /** The managed words in the order they are first written: 0xE01D, 0xE205, then 0xE026 to 0xE02C. */
  type Image = s: seq<Word> | |s| == 9 witness [0, 0, 0, 0, 0, 0, 0, 0, 0]

  type Index = i: nat | i < 9

  const CUTOFF := 0
  const MAINS := 1
  const SCHEDULE := 2
  const ENABLE := 8

  const CUTOFF_REGISTER :=
    Register("battery_charge_cutoff_soc", 0xE01D, 1, Uint16, false, 1.0, 0, map[], true, 0.0, 100.0, 1.0)
  const MAINS_REGISTER :=
    Register("mains_charge_current_limit", 0xE205, 1, Uint16, false, 0.1, 1, map[], true, 0.0, 120.0, 0.1)

  /** Three near-full-day slots, then the enable word. */
  const STORM_SCHEDULE: seq<Word> := [0x0001, 0x173B, 0x0001, 0x173B, 0x0001, 0x173B, 1]

  // ----- what is remembered -----

  datatype Phase = Unset | Idle | Starting | Charging | Restoring | Completed | Cancelled | TimedOut | Failed

  datatype Reason =
    | NoReason | StartFailed | PersistenceFailed | ManualCancel | ModbusLost | ResumeFailed
    | DeadlinePassed | FaultReported(id: string, code: int) | GridLost | TargetReached

  /** Times and durations are in nanoseconds. */
  datatype Settings = Settings(targetSOC: int, maxCurrentA: real, timeout: int)

  datatype Previous = Previous(cutoffSOC: int, mainsA: real, schedule: seq<Word>)

  datatype Runtime = Runtime(
    version: int, active: bool, phase: Phase, settings: Settings, previous: Previous,
    startedAt: Option<int>, deadline: Option<int>, reason: Reason)

  const NO_PREVIOUS := Previous(0, 0.0, [])
  const IDLE_RUNTIME := Runtime(2, false, Idle, Settings(0, 0.0, 0), NO_PREVIOUS, None, None, NoReason)

  const MINUTE := 60_000_000_000
  const HOUR := 60 * MINUTE

  predicate ValidSettings(s: Settings) {
    && 50 <= s.targetSOC <= 100
    && 0.0 < s.maxCurrentA <= 120.0
    && 5 * MINUTE <= s.timeout <= 24 * HOUR
  }

  function FinalPhase(reason: Reason): Phase {
    match reason
    case TargetReached => Completed
    case DeadlinePassed => TimedOut
    case ManualCancel | GridLost => Cancelled
    case _ => Failed
  }

  // ----- telemetry -----

  /** One telemetry value: its number, when it has one, and its raw value. */
  datatype Reading = Reading(number: Option<real>, raw: int)

  datatype Snapshot = Snapshot(connected: bool, telemetry: map<string, Reading>)

  function Numeric(snap: Snapshot, id: string): Option<real> {
    if id in snap.telemetry then snap.telemetry[id].number else None
  }

  predicate Within(value: Option<real>, low: real, high: real) {
    value.Some? && low <= value.value <= high
  }

  predicate GridAvailable(snap: Snapshot) {
    && Within(Numeric(snap, "grid_voltage_phase_a"), 170.0, 280.0)
    && Within(Numeric(snap, "grid_voltage_phase_b"), 170.0, 280.0)
    && Within(Numeric(snap, "grid_voltage_phase_c"), 170.0, 280.0)
    && Within(Numeric(snap, "grid_frequency"), 45.0, 65.0)
  }

  predicate HasRequiredTelemetry(snap: Snapshot) {
    {"battery_soc", "battery_charge_cutoff_soc", "mains_charge_current_limit", "grid_voltage_phase_a",
     "grid_voltage_phase_b", "grid_voltage_phase_c", "grid_frequency"} <= snap.telemetry.Keys
  }

  predicate Faulty(snap: Snapshot, id: string) {
    id in snap.telemetry && snap.telemetry[id].raw != 0
  }

  function ActiveFault(snap: Snapshot): Option<Reason> {
    if Faulty(snap, "fault_code_1") then Some(FaultReported("fault_code_1", snap.telemetry["fault_code_1"].raw))
    else if Faulty(snap, "fault_code_2") then Some(FaultReported("fault_code_2", snap.telemetry["fault_code_2"].raw))
    else None
  }

  // ----- the machine -----

  /** Who asked for the storm settings: a start, or the resumption of a session found in the file. */
  datatype Applying = Fresh(now: int) | Resumed(snap: Snapshot, now: int)

  /** The I/O action that comes next.  `final` is the phase the caller of a restore asked for; `again` says that
      the restore was retried by an evaluation that found the session restoring. */
  datatype Task =
    | Down
    | Rest
    | SaveUndoRecord(now: int)
    | ApplyWrite(k: Index, how: Applying)
    | SaveStartFailed
    | SaveStarted
    | SaveResumed(snap: Snapshot)
    | SaveAndRest
    | SaveRestoring(final: Phase, again: bool)
    | UndoWrite(k: Index, failed: bool, final: Phase, again: bool)
    | SaveUndoErrors(again: bool)
    | SaveStopped(again: bool)

  /** Memory (`runtime`, `resumePending`), the file, the inverter's nine words, and the next action.  The last four
      fields only observe: how many sessions have begun, what the latest one captured and found on the inverter, and
      whether a storm write has been issued since the last complete restore. */
  datatype Machine = Machine(
    runtime: Runtime, resumePending: bool, file: Option<Runtime>, device: Image, task: Task,
    session: nat, captured: Previous, origin: Image, dirty: bool)

  /** How an I/O action ends.  A failed write may or may not have reached the inverter; a failed save leaves the
      old file. */
  datatype Outcome = Done | FailedOld | FailedNew

  datatype Call =
    | Start(settings: Settings, snap: Snapshot, readable: bool, now: int)
    | Cancel
    | Evaluate(snap: Snapshot, now: int)

  datatype Event =
    | Invoke(call: Call)
    | Io(outcome: Outcome)
    | Crash
    | Boot(readable: bool)
    | Outside(words: Image)

  function WordFor(r: Register, value: real): Option<Word>
    requires r.enum == map[]
  {
    match EncodeNumber(r, Number(value)) case Ok(w) => Some(w) case Err => None
  }

  /** What a start or resumption writes, word by word; a word the codec refuses is never written. */
  function StormWord(s: Settings, i: Index): Option<Word>
  {
    if i == CUTOFF then WordFor(CUTOFF_REGISTER, s.targetSOC as real)
    else if i == MAINS then WordFor(MAINS_REGISTER, s.maxCurrentA)
    else Some(STORM_SCHEDULE[i - SCHEDULE])
  }

  function UndoWord(p: Previous, i: Index): Option<Word>
  {
    if i == CUTOFF then WordFor(CUTOFF_REGISTER, p.cutoffSOC as real)
    else if i == MAINS then WordFor(MAINS_REGISTER, p.mainsA)
    else if |p.schedule| == 7 then Some(p.schedule[i - SCHEDULE])
    else None
  }

  /** The order of restoring writes: a disabled schedule is disabled first, an enabled one enabled last. */
  function UndoIndex(p: Previous, k: Index): Index
  {
    if k == 7 then MAINS
    else if k == 8 then CUTOFF
    else if |p.schedule| == 7 && p.schedule[6] == 0 then (if k == 0 then ENABLE else k + 1)
    else k + 2
  }

  function Saved(m: Machine, o: Outcome): Option<Runtime> {
    if o == Done then Some(m.runtime) else m.file
  }

  /** The words after one write; it succeeds only when the value could be encoded and the write was acknowledged. */
  function Written(device: Image, i: Index, value: Option<Word>, o: Outcome): Image
  {
    if value.None? || o == FailedOld then device else device[i := value.value]
  }

  predicate WriteSucceeds(value: Option<Word>, o: Outcome) {
    value.Some? && o == Done
  }

  // ----- the start of a call, up to its first I/O action -----

  function BeginRestore(m: Machine, final: Phase, reason: Reason, again: bool): Machine {
    m.(runtime := m.runtime.(phase := Restoring, reason := reason), task := SaveRestoring(final, again))
  }

  function BeginStart(m: Machine, settings: Settings, snap: Snapshot, readable: bool, now: int): Machine {
    var soc := Numeric(snap, "battery_soc");
    var limit := Numeric(snap, "maximum_charge_current");
    var cutoff := Numeric(snap, "battery_charge_cutoff_soc");
    var mains := Numeric(snap, "mains_charge_current_limit");
    if !ValidSettings(settings) || m.runtime.active then m
    else if soc.None? || soc.value >= settings.targetSOC as real then m
    else if !GridAvailable(snap) then m
    else if limit.Some? && limit.value > 0.0 && settings.maxCurrentA > limit.value then m
    else if cutoff.None? || mains.None? || !readable then m
    else
      var previous := Previous(Truncate(cutoff.value), mains.value, m.device[SCHEDULE..]);
      m.(runtime := Runtime(2, true, Starting, settings, previous, Some(now), Some(now + settings.timeout), NoReason),
         task := SaveUndoRecord(now))
  }

  /** The last checks of an evaluation, on a session that is charging. */
  function CheckSession(m: Machine, snap: Snapshot): Machine {
    var soc := Numeric(snap, "battery_soc");
    if ActiveFault(snap).Some? then BeginRestore(m, Failed, ActiveFault(snap).value, false)
    else if !GridAvailable(snap) then BeginRestore(m, Cancelled, GridLost, false)
    else if soc.Some? && soc.value >= m.runtime.settings.targetSOC as real then
      BeginRestore(m, Completed, TargetReached, false)
    else m.(task := Rest)
  }

  predicate Expired(r: Runtime, now: int) {
    r.deadline.Some? && r.deadline.value <= now
  }

  function BeginEvaluate(m: Machine, snap: Snapshot, now: int): Machine {
    if !m.runtime.active then m
    else if !snap.connected then
      if m.resumePending || m.runtime.phase == Restoring then m
      else m.(runtime := m.runtime.(phase := Restoring, reason := ModbusLost), task := SaveAndRest)
    else if m.runtime.phase == Restoring then BeginRestore(m, FinalPhase(m.runtime.reason), m.runtime.reason, true)
    else if Expired(m.runtime, now) then BeginRestore(m, TimedOut, DeadlinePassed, false)
    else if !HasRequiredTelemetry(snap) then m
    else if m.resumePending then m.(task := ApplyWrite(0, Resumed(snap, now)))
    else CheckSession(m, snap)
  }

  function Begin(m: Machine, call: Call): Machine {
    match call
    case Start(settings, snap, readable, now) => BeginStart(m, settings, snap, readable, now)
    case Cancel => if m.runtime.active then BeginRestore(m, Cancelled, ManualCancel, false) else m
    case Evaluate(snap, now) => BeginEvaluate(m, snap, now)
  }

  // ----- one I/O action and the computation that follows it -----

  function AfterApply(m: Machine, how: Applying): Machine {
    match how
    case Fresh(_) => m.(runtime := m.runtime.(phase := Charging), task := SaveStarted)
    case Resumed(snap, _) =>
      m.(runtime := m.runtime.(phase := Charging), resumePending := false, task := SaveResumed(snap))
  }

  function ApplyFailed(m: Machine, how: Applying): Machine {
    match how
    case Fresh(_) => m.(runtime := m.runtime.(phase := Restoring, reason := StartFailed), task := SaveStartFailed)
    case Resumed(_, _) => m.(runtime := m.runtime.(phase := Restoring, reason := ResumeFailed), task := SaveAndRest)
  }

  function AfterUndo(m: Machine, k: nat, failed: bool, final: Phase, again: bool): Machine {
    if k < 9 then m.(task := UndoWrite(k, failed, final, again))
    else if failed then m.(task := SaveUndoErrors(again))
    else m.(runtime := m.runtime.(active := false, phase := final, deadline := None), task := SaveStopped(again),
            dirty := m.dirty && |m.runtime.previous.schedule| != 7)
  }

  function AfterFailedRestore(m: Machine, again: bool): Machine {
    m.(task := if again then SaveAndRest else Rest)
  }

  function Step(m: Machine, o: Outcome): Machine
  {
    match m.task
    case Down | Rest => m
    case SaveUndoRecord(now) =>
      if o == Done then
        m.(file := Some(m.runtime), task := ApplyWrite(0, Fresh(now)),
           session := m.session + 1, captured := m.runtime.previous, origin := m.device)
      else m.(runtime := IDLE_RUNTIME, task := Rest)
    case ApplyWrite(k, how) =>
      var word := StormWord(m.runtime.settings, k);
      var m' := m.(device := Written(m.device, k, word, o), dirty := true);
      if !WriteSucceeds(word, o) then ApplyFailed(m', how)
      else if k < 8 then m'.(task := ApplyWrite(k + 1, how))
      else AfterApply(m', how)
    case SaveStartFailed => BeginRestore(m.(file := Saved(m, o)), Failed, StartFailed, false)
    case SaveStarted =>
      if o == Done then m.(file := Saved(m, o), task := Rest)
      else BeginRestore(m, Failed, PersistenceFailed, false)
    case SaveResumed(snap) => CheckSession(m.(file := Saved(m, o)), snap)
    case SaveAndRest => m.(file := Saved(m, o), task := Rest)
    case SaveRestoring(final, again) =>
      m.(file := Saved(m, o),
         task := UndoWrite(if |m.runtime.previous.schedule| == 7 then 0 else 7, false, final, again))
    case UndoWrite(k, failed, final, again) =>
      var i := UndoIndex(m.runtime.previous, k);
      var word := UndoWord(m.runtime.previous, i);
      var ok := WriteSucceeds(word, o);
      AfterUndo(m.(device := Written(m.device, i, word, o)), if ok || k >= 7 then k + 1 else 7,
                failed || !ok, final, again)
    case SaveUndoErrors(again) => AfterFailedRestore(m.(file := Saved(m, o)), again)
    case SaveStopped(again) =>
      if o == Done then m.(file := Saved(m, o), task := Rest)
      else AfterFailedRestore(m.(runtime := m.runtime.(active := true, phase := Restoring)), again)
  }

  // ----- the file at the start of a process -----

  predicate Loadable(file: Option<Runtime>) {
    file.Some? ==> file.value.version == 2 || (file.value.version == 1 && !file.value.active)
  }

  function Load(m: Machine): Machine {
    match m.file
    case None => m.(runtime := IDLE_RUNTIME, resumePending := false, task := Rest)
    case Some(r) =>
      m.(runtime := r.(version := 2, phase := if r.phase == Unset then Idle else r.phase),
         resumePending := r.active, task := Rest)
  }

  predicate FileActive(m: Machine) {
    m.file.Some? && m.file.value.active
  }

  /** One event of a run.  An event that cannot happen in the present state changes nothing: calls wait for each
      other, a process that is down does no I/O, and nobody else writes the nine words during a session. */
  function Next(m: Machine, e: Event): Machine
  {
    match e
    case Invoke(call) => if m.task == Rest then Begin(m, call) else m
    case Io(o) => Step(m, o)
    case Crash => m.(runtime := IDLE_RUNTIME, resumePending := false, task := Down)
    case Boot(readable) => if m.task == Down && readable && Loadable(m.file) then Load(m) else m
    case Outside(words) =>
      if (m.task == Rest && !m.runtime.active) || (m.task == Down && !FileActive(m)) then m.(device := words) else m
  }

  /** Every process run begins with the process down and no session in the file. */
  predicate Initial(m: Machine) {
    m.task == Down && !m.runtime.active && !FileActive(m) && Loadable(m.file) && !m.dirty
  }
}
