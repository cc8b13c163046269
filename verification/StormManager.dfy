/** The manager itself: its methods update the session in place, write word by word, and save as they go.  Each method
    is proved to take exactly the steps of the storm-charge machine, so what is proved of the machine's runs holds of
    the manager between any two of its I/O actions. */
module StormManager {
  import opened Common
  import opened Registers
  import opened StormCharge
  import opened StormInvariant
  import opened StormTheorems

  /** The machine after a number of I/O actions. */
  function Performed(m: Machine, log: seq<Outcome>): Machine {
    if log == [] then m else Step(Performed(m, log[..|log| - 1]), log[|log| - 1])
  }

  function Actions(log: seq<Outcome>): seq<Event> {
    seq(|log|, i requires 0 <= i < |log| => Io(log[i]))
  }

  /** I/O actions are events of a run like any others. */
  lemma {:induction false} PerformedIsRun(m: Machine, log: seq<Outcome>)
    ensures Run(m, Actions(log)) == Performed(m, log)
  {
    if log != [] {
      var n := |log| - 1;
      PerformedIsRun(m, log[..n]);
      RunAppend(m, Actions(log[..n]), [Io(log[n])]);
      assert Actions(log) == Actions(log[..n]) + [Io(log[n])];
      var p := Performed(m, log[..n]);
      assert Run(p, [Io(log[n])]) == Run(Next(p, Io(log[n])), []);
    }
  }

  lemma PerformedOneMore(m: Machine, log: seq<Outcome>, o: Outcome)
    ensures Performed(m, log + [o]) == Step(Performed(m, log), o)
  {
    assert (log + [o])[..|log|] == log;
  }

  /** What the invariant promises holds between any two I/O actions of any call. */
  lemma {:induction false} EveryPointIsSafe(m: Machine, call: Call, log: seq<Outcome>, n: nat)
    requires Inv(m) && n <= |log|
    ensures Inv(Performed(Next(m, Invoke(call)), log[..n]))
  {
    var es := [Invoke(call)] + Actions(log[..n]);
    PerformedIsRun(Next(m, Invoke(call)), log[..n]);
    assert es[1..] == Actions(log[..n]);
    RunKeepsInv(m, es);
  }

  // ----- the machine's progress through one loop -----

  /** The word the machine writes next, and the value it tries to write. */
  function Pending(m: Machine): Option<(Index, Option<Word>)> {
    match m.task
    case ApplyWrite(k, _) => Some((k, StormWord(m.runtime.settings, k)))
    case UndoWrite(k, _, _, _) =>
      var i := UndoIndex(m.runtime.previous, k);
      Some((i, UndoWord(m.runtime.previous, i)))
    case _ => None
  }

  /** The machine is about to write this schedule, for a session that begins or for one that is undone. */
  predicate ScheduleDue(m: Machine, values: seq<Word>) {
    match m.task
    case ApplyWrite(k, _) => k == SCHEDULE && values == STORM_SCHEDULE && m.dirty
    case UndoWrite(k, failed, _, _) => k == 0 && !failed && values == m.runtime.previous.schedule && |values| == 7
    case _ => false
  }

  /** The machine after `n` words of the schedule have been written. */
  function ScheduleAt(m: Machine, device: Image, n: nat): Machine
    requires n <= 7
  {
    match m.task
    case ApplyWrite(_, how) =>
      if n < 7 then m.(device := device, task := ApplyWrite(SCHEDULE + n, how))
      else AfterApply(m.(device := device), how)
    case UndoWrite(_, _, final, again) => m.(device := device, task := UndoWrite(n, false, final, again))
    case _ => m
  }

  function AfterSchedule(m: Machine, device: Image, ok: bool): Machine {
    if ok then ScheduleAt(m, device, 7)
    else
      match m.task
      case ApplyWrite(_, how) => ApplyFailed(m.(device := device), how)
      case UndoWrite(_, _, final, again) => m.(device := device, task := UndoWrite(7, true, final, again))
      case _ => m
  }

  /** Which word comes at place `n`: the enable word is first when it is zero and last when it is not. */
  function ScheduleIndex(values: seq<Word>, n: nat): Index
    requires |values| == 7 && n < 7
  {
    if values[6] == 0 then (if n == 0 then ENABLE else n + 1) else n + 2
  }

  lemma ScheduleStep(m: Machine, device: Image, values: seq<Word>, n: nat, o: Outcome)
    requires ScheduleDue(m, values) && n < 7
    ensures
      var i := ScheduleIndex(values, n);
      var at := ScheduleAt(m, device, n);
      var device' := Written(device, i, Some(values[i - SCHEDULE]), o);
      && Pending(at) == Some((i, Some(values[i - SCHEDULE])))
      && Step(at, o) == (if o == Done then ScheduleAt(m, device', n + 1) else AfterSchedule(m, device', false))
  {
  }

  /** One of the two single settings is written: the n-th of them. */
  lemma SettingStep(m: Machine, device: Image, n: nat, failed: bool, o: Outcome)
    requires m.task.UndoWrite? && n < 2
    ensures
      var i := if n == 0 then MAINS else CUTOFF;
      var word := UndoWord(m.runtime.previous, i);
      var at := AfterUndo(m.(device := device), 7 + n, failed, m.task.final, m.task.again);
      && Pending(at) == Some((i, word))
      && Step(at, o) == AfterUndo(m.(device := Written(device, i, word, o)), 8 + n, failed || !WriteSucceeds(word, o),
                                  m.task.final, m.task.again)
  {
  }

  /** The saves of a restore: before its writes, after a failure, and at the end. */
  lemma RestoreSaves(m: Machine, o: Outcome)
    requires m.task.SaveRestoring? || m.task.SaveUndoErrors? || m.task.SaveStopped?
    ensures Step(m, o).resumePending == m.resumePending
    ensures m.task.SaveRestoring? ==>
              Step(m, o) == m.(file := Saved(m, o),
                               task := UndoWrite(if |m.runtime.previous.schedule| == 7 then 0 else 7,
                                                 false, m.task.final, m.task.again))
    ensures m.task.SaveUndoErrors? || (m.task.SaveStopped? && o != Done) ==>
              Step(m, o).task == if m.task.again then SaveAndRest else Rest
    ensures m.task.SaveUndoErrors? ==> Step(m, o).runtime == m.runtime
    ensures m.task.SaveStopped? ==>
              && (o == Done ==> Step(m, o).task == Rest && Step(m, o).runtime == m.runtime)
              && (o != Done ==> Step(m, o).runtime == m.runtime.(active := true, phase := Restoring))
  {
  }

  /** A save leaves the inverter alone and the file with the runtime, or as it was. */
  predicate SavesOnly(m: Machine, o: Outcome, n: Machine) {
    n.device == m.device && n.file == if o == Done then Some(m.runtime) else m.file
  }

  lemma FirstSaves(m: Machine, o: Outcome)
    requires m.task.SaveUndoRecord? || m.task.SaveStarted?
    ensures SavesOnly(m, o, Step(m, o))
  {
  }

  lemma RestoringSaves(m: Machine, o: Outcome)
    requires m.task.SaveStartFailed? || m.task.SaveRestoring? || m.task.SaveAndRest?
    ensures SavesOnly(m, o, Step(m, o))
  {
  }

  lemma ResumedSave(m: Machine, o: Outcome)
    requires m.task.SaveResumed?
    ensures SavesOnly(m, o, Step(m, o))
  {
    CheckSessionTouches(m.(file := Saved(m, o)), m.task.snap);
  }

  lemma LastSaves(m: Machine, o: Outcome)
    requires m.task.SaveUndoErrors? || m.task.SaveStopped?
    ensures SavesOnly(m, o, Step(m, o))
  {
  }

  lemma StepSaves(m: Machine, o: Outcome)
    requires !m.task.Down? && !m.task.Rest? && !m.task.ApplyWrite? && !m.task.UndoWrite?
    ensures SavesOnly(m, o, Step(m, o))
  {
    match m.task
    case SaveUndoRecord(_) | SaveStarted => FirstSaves(m, o);
    case SaveResumed(_) => ResumedSave(m, o);
    case SaveUndoErrors(_) | SaveStopped(_) => LastSaves(m, o);
    case _ => RestoringSaves(m, o);
  }

  lemma StepWrites(m: Machine, o: Outcome)
    requires Pending(m).Some?
    ensures Step(m, o).device == Written(m.device, Pending(m).value.0, Pending(m).value.1, o)
    ensures Step(m, o).file == m.file
  {
  }

  class Manager {
    var runtime: Runtime
    var resumePending: bool

    // What is outside the process: the state file and the inverter's nine words.
    var file: Option<Runtime>
    var device: Image

    // The machine this manager drives: what the last call made of it, the I/O actions since, and where it is now.
    ghost var began: Machine
    ghost var log: seq<Outcome>
    ghost var at: Machine

    /** The machine has taken the logged steps and has seen everything that is outside the process. */
    ghost predicate Traced()
      reads this
    {
      at == Performed(began, log) && at.file == file && at.device == device
    }

    ghost predicate Synced()
      reads this
    {
      Traced() && at.runtime == runtime && at.resumePending == resumePending
    }

    /** No call is in progress. */
    ghost predicate Quiet()
      reads this
    {
      Synced() && at.task == Rest
    }

    /** A process that comes up: the session is what the file says, and an active one is to be resumed. */
    constructor Load(file: Option<Runtime>, device: Image, ghost down: Machine)
      requires Loadable(file)
      requires down.task == Down && down.file == file && down.device == device
      ensures Quiet() && at == Next(down, Boot(true))
    {
      this.file, this.device := file, device;
      if file == None {
        this.runtime, this.resumePending := IDLE_RUNTIME, false;
      } else {
        var loaded := file.value;
        if loaded.version == 1 && !loaded.active {
          loaded := loaded.(version := 2);
        }
        if loaded.phase == Unset {
          loaded := loaded.(phase := Idle);
        }
        this.runtime, this.resumePending := loaded, loaded.active;
      }
      this.began := Next(down, Boot(true));
      this.log := [];
      this.at := Next(down, Boot(true));
    }

    /** One attempt to replace the state file. */
    method SaveLocked() returns (ok: bool)
      requires Synced()
      requires !at.task.Down? && !at.task.Rest? && !at.task.ApplyWrite? && !at.task.UndoWrite?
      modifies this`file, this`at, this`log
      ensures Traced()
      ensures at == Step(old(at), if ok then Done else FailedOld)
      ensures file == if ok then Some(runtime) else old(file)
    {
      ok := *;
      ghost var o := if ok then Done else FailedOld;
      if ok {
        file := Some(runtime);
      }
      PerformedOneMore(began, log, o);
      StepSaves(at, o);
      log := log + [o];
      at := Step(at, o);
    }

    /** One attempt to write one word; a failed attempt may still have reached the inverter. */
    method WriteWord(i: Index, value: Option<Word>) returns (ok: bool, ghost o: Outcome)
      requires Traced() && Pending(at) == Some((i, value))
      modifies this`device, this`at, this`log
      ensures Traced() && at == Step(old(at), o)
      ensures ok <==> WriteSucceeds(value, o)
      ensures device == Written(old(device), i, value, o)
    {
      var reached := *;
      var acknowledged := *;
      ok := value.Some? && acknowledged;
      o := if acknowledged then Done else if reached then FailedNew else FailedOld;
      if value.Some? && (acknowledged || reached) {
        device := device[i := value.value];
      }
      PerformedOneMore(began, log, o);
      StepWrites(at, o);
      log := log + [o];
      at := Step(at, o);
    }

    /** Writes one word of the schedule; `n` words of it have been written since the machine was `m`. */
    method WriteHoldingWord(offset: nat, value: Word, ghost m: Machine, ghost values: seq<Word>, ghost n: nat)
      returns (ok: bool)
      requires offset < 7 && n < 7 && ScheduleDue(m, values)
      requires offset == ScheduleIndex(values, n) - SCHEDULE && value == values[offset]
      requires Traced() && at == ScheduleAt(m, device, n)
      modifies this`device, this`at, this`log
      ensures Traced()
      ensures at == if ok then ScheduleAt(m, device, n + 1) else AfterSchedule(m, device, false)
    {
      ghost var before := device;
      ghost var o;
      ScheduleStep(m, before, values, n, Done);
      ok, o := WriteWord(SCHEDULE + offset, Some(value));
      ScheduleStep(m, before, values, n, o);
    }

    /** Writes the seven schedule words, enabling last or disabling first, and stops at the first failure. */
    method WriteTimedChargeSchedule(values: seq<Word>) returns (ok: bool)
      requires Traced() && ScheduleDue(at, values)
      modifies this`device, this`at, this`log
      ensures Traced()
      ensures at == AfterSchedule(old(at), device, ok)
    {
      ghost var m, first := at, 0;
      if |values| != 7 {
        return false;
      }
      if values[6] == 0 {
        ok := WriteHoldingWord(6, values[6], m, values, 0);
        if !ok {
          return;
        }
        first := 1;
      }
      for offset := 0 to 6
        invariant Traced()
        invariant at == ScheduleAt(m, device, first + offset)
      {
        ok := WriteHoldingWord(offset, values[offset], m, values, first + offset);
        if !ok {
          return;
        }
      }
      if values[6] != 0 {
        ok := WriteHoldingWord(6, values[6], m, values, 6);
        if !ok {
          return;
        }
      }
      ok := true;
    }

    /** Writes the storm settings of the current session, stopping at the first failure. */
    method ApplyStormSettings(ghost how: Applying) returns (ok: bool)
      requires Synced() && at.task == ApplyWrite(0, how)
      modifies this`device, this`at, this`log
      ensures Traced()
      ensures var written := old(at).(device := device, dirty := true);
              at == if ok then AfterApply(written, how) else ApplyFailed(written, how)
    {
      var writes: seq<(Index, Option<Word>)> :=
        [(CUTOFF, WordFor(CUTOFF_REGISTER, runtime.settings.targetSOC as real)),
         (MAINS, WordFor(MAINS_REGISTER, runtime.settings.maxCurrentA))];
      for n := 0 to 2
        invariant Traced()
        invariant at == old(at).(device := device, dirty := old(at).dirty || n > 0, task := ApplyWrite(n, how))
      {
        ghost var o;
        ok, o := WriteWord(writes[n].0, writes[n].1);
        if !ok {
          return;
        }
      }
      ok := WriteTimedChargeSchedule(STORM_SCHEDULE);
    }

    /** Puts the captured schedule back, if a whole one was captured. */
    method RestoreSchedule(ghost final: Phase, ghost again: bool) returns (failed: bool)
      requires Synced() && at.task == UndoWrite(if |runtime.previous.schedule| == 7 then 0 else 7, false, final, again)
      modifies this`device, this`at, this`log
      ensures Traced() && at == old(at).(device := device, task := UndoWrite(7, failed, final, again))
    {
      failed := false;
      if |runtime.previous.schedule| == 7 {
        var ok := WriteTimedChargeSchedule(runtime.previous.schedule);
        failed := !ok;
      }
    }

    /** Puts the two single settings back; a failure of one does not keep the other from being tried. */
    method RestoreSettings(earlier: bool, ghost final: Phase, ghost again: bool) returns (failed: bool)
      requires Synced() && at.task == UndoWrite(7, earlier, final, again)
      modifies this`device, this`at, this`log
      ensures Traced()
      ensures at == AfterUndo(old(at).(device := device), 9, failed, final, again)
    {
      failed := earlier;
      var writes: seq<(Index, Option<Word>)> :=
        [(MAINS, WordFor(MAINS_REGISTER, runtime.previous.mainsA)),
         (CUTOFF, WordFor(CUTOFF_REGISTER, runtime.previous.cutoffSOC as real))];
      for n := 0 to 2
        invariant Traced()
        invariant at == AfterUndo(old(at).(device := device), 7 + n, failed, final, again)
      {
        var ok;
        ghost var o;
        ghost var before := device;
        SettingStep(old(at), before, n, failed, Done);
        ok, o := WriteWord(writes[n].0, writes[n].1);
        SettingStep(old(at), before, n, failed, o);
        failed := failed || !ok;
      }
    }

    /** The end of a restore: it is recorded as failed, or the session is recorded as over. */
    method FinishRestore(failed: bool, final: Phase, ghost m: Machine, ghost again: bool) returns (ok: bool)
      requires Traced() && at == AfterUndo(m, 9, failed, final, again)
      requires m.runtime == runtime && m.resumePending == resumePending && runtime.phase == Restoring
      modifies this`runtime, this`file, this`at, this`log
      ensures Synced() && at.task == if !ok && again then SaveAndRest else Rest
      ensures !ok ==> runtime.phase == Restoring
      ensures ok ==>
                runtime == old(runtime).(active := false, phase := final, deadline := None) && file == Some(runtime)
    {
      if failed {
        ok := SaveLocked();
        RestoreSaves(old(at), if ok then Done else FailedOld);
        return false;
      }
      runtime := runtime.(active := false, phase := final, deadline := None);
      ok := SaveLocked();
      RestoreSaves(old(at), if ok then Done else FailedOld);
      if !ok {
        runtime := runtime.(active := true, phase := Restoring);
      }
    }

    /** Marks the session as restoring; a save that fails here does not keep the restore from going on. */
    method MarkRestoring(final: Phase, reason: Reason, ghost m: Machine, ghost again: bool)
      requires Traced() && at == BeginRestore(m, final, reason, again)
      requires m.runtime == runtime && m.resumePending == resumePending
      modifies this`runtime, this`file, this`at, this`log
      ensures Synced() && runtime == old(at).runtime
      ensures at.task == UndoWrite(if |runtime.previous.schedule| == 7 then 0 else 7, false, final, again)
    {
      runtime := runtime.(phase := Restoring, reason := reason);
      var ok := SaveLocked();
      RestoreSaves(old(at), if ok then Done else FailedOld);
    }

    /** Puts the captured words back, going on after a failed write, and ends the session if none failed. */
    method RestoreLocked(final: Phase, reason: Reason, ghost m: Machine, ghost again: bool) returns (ok: bool)
      requires Traced() && at == BeginRestore(m, final, reason, again)
      requires m.runtime == runtime && m.resumePending == resumePending
      modifies this`runtime, this`file, this`device, this`at, this`log
      ensures Synced() && at.task == if !ok && again then SaveAndRest else Rest
      ensures ok ==> !runtime.active && runtime.phase == final && runtime.reason == reason && file == Some(runtime)
      ensures !ok ==> runtime.phase == Restoring
    {
      MarkRestoring(final, reason, m, again);
      var failed := RestoreSchedule(final, again);
      ghost var due := at;
      failed := RestoreSettings(failed, final, again);
      ok := FinishRestore(failed, final, due.(device := device), again);
    }

    /** Begins a session: checks, captures, saves the undo record, and only then writes. */
    method Start(settings: Settings, snap: Snapshot, readable: bool, now: int) returns (ok: bool)
      requires Quiet()
      modifies this
      ensures Quiet() && began == Next(old(at), Invoke(Call.Start(settings, snap, readable, now)))
      ensures ok ==>
                runtime.active && runtime.phase == Charging && runtime.settings == settings && file == Some(runtime)
      ensures !ok && !old(runtime.active) ==> !runtime.active || runtime.phase == Restoring
    {
      began, log := Begin(at, Call.Start(settings, snap, readable, now)), [];
      at := began;
      if !ValidSettings(settings) || runtime.active {
        return false;
      }
      var soc := Numeric(snap, "battery_soc");
      if soc.None? || soc.value >= settings.targetSOC as real || !GridAvailable(snap) {
        return false;
      }
      var limit := Numeric(snap, "maximum_charge_current");
      if limit.Some? && limit.value > 0.0 && settings.maxCurrentA > limit.value {
        return false;
      }
      var cutoff, mains := Numeric(snap, "battery_charge_cutoff_soc"), Numeric(snap, "mains_charge_current_limit");
      if cutoff.None? || mains.None? || !readable {
        return false;
      }
      var previous := Previous(Truncate(cutoff.value), mains.value, device[SCHEDULE..]);
      runtime := Runtime(2, true, Starting, settings, previous, Some(now), Some(now + settings.timeout), NoReason);
      ok := SaveLocked();
      if !ok {
        runtime := IDLE_RUNTIME;
        return;
      }
      ok := StartRecorded(now);
    }

    /** The rest of a start, once the undo record is safe. */
    method StartRecorded(now: int) returns (ok: bool)
      requires Synced() && at.task == ApplyWrite(0, Fresh(now))
      modifies this`runtime, this`file, this`device, this`at, this`log
      ensures Quiet()
      ensures ok ==> runtime == old(runtime).(phase := Charging) && file == Some(runtime)
      ensures !ok ==> !runtime.active || runtime.phase == Restoring
    {
      ok := ApplyStormSettings(Fresh(now));
      if !ok {
        runtime := runtime.(phase := Restoring, reason := StartFailed);
        ghost var m := at;
        var saved := SaveLocked();
        var _ := RestoreLocked(Failed, StartFailed, m.(file := file), false);
        return;
      }
      runtime := runtime.(phase := Charging);
      ghost var m := at;
      ok := SaveLocked();
      if !ok {
        runtime := runtime.(phase := Restoring, reason := PersistenceFailed);
        var _ := RestoreLocked(Failed, PersistenceFailed, m.(runtime := runtime), false);
      }
    }

    /** Ends the session at the user's request. */
    method Cancel() returns (ok: bool)
      requires Quiet()
      modifies this
      ensures Quiet() && began == Next(old(at), Invoke(Call.Cancel))
      ensures if ok then !runtime.active else runtime.phase == Restoring
    {
      ghost var m := at;
      began, log := Begin(at, Call.Cancel), [];
      at := began;
      if !runtime.active {
        return true;
      }
      ok := RestoreLocked(Cancelled, ManualCancel, m, false);
    }

    /** The last checks of an evaluation. */
    method CheckLocked(snap: Snapshot, ghost m: Machine)
      requires Traced() && at == CheckSession(m, snap) && m.runtime == runtime && m.resumePending == resumePending
      modifies this`runtime, this`file, this`device, this`at, this`log
      ensures Quiet()
    {
      var fault := ActiveFault(snap);
      if fault.Some? {
        var _ := RestoreLocked(Failed, fault.value, m, false);
        return;
      }
      if !GridAvailable(snap) {
        var _ := RestoreLocked(Cancelled, GridLost, m, false);
        return;
      }
      var soc := Numeric(snap, "battery_soc");
      if soc.Some? && soc.value >= runtime.settings.targetSOC as real {
        var _ := RestoreLocked(Completed, TargetReached, m, false);
      }
    }

    /** Writes the storm settings of a loaded session again, then checks it. */
    method ResumeLocked(snap: Snapshot, now: int)
      requires Synced() && at.task == ApplyWrite(0, Resumed(snap, now))
      modifies this`runtime, this`resumePending, this`file, this`device, this`at, this`log
      ensures Quiet()
    {
      var ok := ApplyStormSettings(Resumed(snap, now));
      if !ok {
        runtime := runtime.(phase := Restoring, reason := ResumeFailed);
        ok := SaveLocked();
        return;
      }
      resumePending := false;
      runtime := runtime.(phase := Charging);
      ghost var m := at;
      ok := SaveLocked();
      CheckLocked(snap, m.(file := file));
    }

    /** What an evaluation does without Modbus: a session that no resumption is due for goes to restoring. */
    method EvaluateLost(snap: Snapshot, now: int, ghost m: Machine)
      requires Traced() && at == BeginEvaluate(m, snap, now) && m.task == Rest
      requires m.runtime == runtime && m.resumePending == resumePending && runtime.active && !snap.connected
      modifies this`runtime, this`file, this`device, this`at, this`log
      ensures Quiet()
    {
      if !resumePending && runtime.phase != Restoring {
        runtime := runtime.(phase := Restoring, reason := ModbusLost);
        var _ := SaveLocked();
      }
    }

    /** An evaluation that finds the session restoring tries again. */
    method RetryLocked(snap: Snapshot, now: int, ghost m: Machine)
      requires Traced() && at == BeginEvaluate(m, snap, now) && m.task == Rest
      requires m.runtime == runtime && m.resumePending == resumePending && runtime.active && snap.connected
      requires runtime.phase == Restoring
      modifies this`runtime, this`file, this`device, this`at, this`log
      ensures Quiet()
    {
      var ok := RestoreLocked(FinalPhase(runtime.reason), runtime.reason, m, true);
      if !ok {
        var _ := SaveLocked();
      }
    }

    /** What an evaluation does with Modbus and no restore under way. */
    method EvaluateConnected(snap: Snapshot, now: int, ghost m: Machine)
      requires Traced() && at == BeginEvaluate(m, snap, now) && m.task == Rest
      requires m.runtime == runtime && m.resumePending == resumePending && runtime.active && snap.connected
      requires runtime.phase != Restoring
      modifies this`runtime, this`resumePending, this`file, this`device, this`at, this`log
      ensures Quiet()
    {
      if Expired(runtime, now) {
        var _ := RestoreLocked(TimedOut, DeadlinePassed, m, false);
        return;
      }
      if !HasRequiredTelemetry(snap) {
        return;
      }
      if resumePending {
        ResumeLocked(snap, now);
      } else {
        CheckLocked(snap, m);
      }
    }

    /** The periodic evaluation of a session. */
    method Evaluate(snap: Snapshot, now: int)
      requires Quiet()
      modifies this
      ensures Quiet() && began == Next(old(at), Invoke(Call.Evaluate(snap, now)))
    {
      ghost var m := at;
      began, log := Begin(at, Call.Evaluate(snap, now)), [];
      at := began;
      if !runtime.active {
        return;
      }
      if !snap.connected {
        EvaluateLost(snap, now, m);
      } else if runtime.phase == Restoring {
        RetryLocked(snap, now, m);
      } else {
        EvaluateConnected(snap, now, m);
      }
    }
  }
}
