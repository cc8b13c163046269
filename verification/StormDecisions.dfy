/** What each call decides, over the numbers it is given: when a session starts, what ends it and how, and what becomes
    of a start or resumption that fails. */
module StormDecisions {
  import opened Common
  import opened Registers
  import opened StormCharge
  import opened StormInvariant
  import opened StormTheorems
  import opened StormRecovery
  import opened StormSessions

  // ----- what telemetry says -----

  /** Telemetry has this value as a number between these bounds. */
  predicate Between(snap: Snapshot, id: string, low: real, high: real) {
    id in snap.telemetry && snap.telemetry[id].number.Some? && low <= snap.telemetry[id].number.value <= high
  }

  predicate OnGrid(snap: Snapshot) {
    && Between(snap, "grid_voltage_phase_a", 170.0, 280.0)
    && Between(snap, "grid_voltage_phase_b", 170.0, 280.0)
    && Between(snap, "grid_voltage_phase_c", 170.0, 280.0)
    && Between(snap, "grid_frequency", 45.0, 65.0)
  }

  /** Telemetry has this value as a number that reaches a bound. */
  predicate Reaches(snap: Snapshot, id: string, bound: real) {
    id in snap.telemetry && snap.telemetry[id].number.Some? && snap.telemetry[id].number.value >= bound
  }

  predicate IsNumber(snap: Snapshot, id: string) {
    id in snap.telemetry && snap.telemetry[id].number.Some?
  }

  predicate NonZero(snap: Snapshot, id: string) {
    id in snap.telemetry && snap.telemetry[id].raw != 0
  }

  predicate Complete(snap: Snapshot) {
    && "battery_soc" in snap.telemetry
    && "battery_charge_cutoff_soc" in snap.telemetry
    && "mains_charge_current_limit" in snap.telemetry
    && "grid_voltage_phase_a" in snap.telemetry
    && "grid_voltage_phase_b" in snap.telemetry
    && "grid_voltage_phase_c" in snap.telemetry
    && "grid_frequency" in snap.telemetry
  }

  // ----- starting -----

  /** A start begins a session exactly when none is active, the settings are within their bounds (times in
      nanoseconds), the charge is known and below the target, the grid is there, a known current limit of the battery is
      respected, and everything that has to be captured can be read.  Otherwise it changes nothing. */
  lemma StartAcceptedIff(m: Machine, settings: Settings, snap: Snapshot, readable: bool, now: int)
    requires m.task == Rest
    ensures var n := Next(m, Invoke(Start(settings, snap, readable, now)));
            var accepted :=
              && !m.runtime.active
              && 50 <= settings.targetSOC <= 100
              && 0.0 < settings.maxCurrentA <= 120.0
              && 300_000_000_000 <= settings.timeout <= 86_400_000_000_000
              && IsNumber(snap, "battery_soc") && !Reaches(snap, "battery_soc", settings.targetSOC as real)
              && OnGrid(snap)
              && (IsNumber(snap, "maximum_charge_current") ==>
                    var limit := snap.telemetry["maximum_charge_current"].number.value;
                    limit > 0.0 ==> settings.maxCurrentA <= limit)
              && IsNumber(snap, "battery_charge_cutoff_soc") && IsNumber(snap, "mains_charge_current_limit")
              && readable;
            && (accepted ==>
                  && n.task == SaveUndoRecord(now)
                  && n.runtime.active && n.runtime.phase == Starting && n.runtime.settings == settings
                  && n.runtime.startedAt == Some(now) && n.runtime.deadline == Some(now + settings.timeout)
                  && n.runtime.previous.mainsA == snap.telemetry["mains_charge_current_limit"].number.value
                  && CutDown(snap.telemetry["battery_charge_cutoff_soc"].number.value, n.runtime.previous.cutoffSOC)
                  && n.runtime.previous.schedule == m.device[2..9])
            && (!accepted ==> n == m)
  {
  }

  /** n is x without its fraction. */
  predicate CutDown(x: real, n: int) {
    if x >= 0.0 then n as real <= x < n as real + 1.0 else n as real - 1.0 < x <= n as real
  }

  // ----- restores that a call begins -----

  /** The call begins a restore for this reason; if everything captured can be written and nothing fails, the session
      ends with the captured words on the inverter and in this phase. */
  predicate Restores(n: Machine, call: Call, reason: Reason, final: Phase) {
    var t := Next(n, Invoke(call));
    && t.task == SaveRestoring(final, call.Evaluate? && n.runtime.phase == Restoring)
    && t.runtime == n.runtime.(phase := Restoring, reason := reason)
    && (Encodable(n.captured) ==> Ended(n.captured, reason, final, Run(n, [Invoke(call)] + Successes(11))))
  }

  predicate Ended(captured: Previous, reason: Reason, final: Phase, end: Machine) {
    && AllUndone(end) && end.captured == captured
    && end.task == Rest && !end.runtime.active && end.file == Some(end.runtime)
    && end.runtime.reason == reason && end.runtime.phase == final
  }

  lemma FinalFitsReason(t: Machine)
    requires MemoryMatchesTask(t) && t.task.SaveRestoring?
    ensures t.task.final == FinalPhase(t.runtime.reason)
  {
  }

  lemma RolledBackIsEnded(captured: Previous, reason: Reason, final: Phase, end: Machine)
    requires RolledBack(captured, reason, end) && final == FinalPhase(reason)
    ensures Ended(captured, reason, final, end)
  {
  }

  lemma BegunRestores(n: Machine, call: Call, reason: Reason, final: Phase)
    requires Inv(n) && n.task == Rest
    requires var t := Next(n, Invoke(call));
             && t.task == SaveRestoring(final, call.Evaluate? && n.runtime.phase == Restoring)
             && t.runtime == n.runtime.(phase := Restoring, reason := reason)
    ensures Restores(n, call, reason, final)
  {
    SessionKept(n, Invoke(call));
    FinalFitsReason(Next(n, Invoke(call)));
    if Encodable(n.captured) {
      CallRollsBack(n, call);
      RolledBackIsEnded(n.captured, reason, final, Run(n, [Invoke(call)] + Successes(11)));
    }
  }

  // ----- evaluating -----

  /** A session that is charging as it should be: an evaluation finds Modbus connected, the deadline ahead, and all the
      telemetry it needs, and owes the session no resumption. */
  predicate Due(n: Machine, snap: Snapshot, now: int) {
    && n.task == Rest && n.runtime.active && n.runtime.phase in {Starting, Charging} && !n.resumePending
    && snap.connected && Complete(snap)
    && n.runtime.startedAt.Some? && now < n.runtime.startedAt.value + n.runtime.settings.timeout
  }

  lemma DueMeansChecked(n: Machine, snap: Snapshot, now: int)
    requires Inv(n) && Due(n, snap, now)
    ensures Next(n, Invoke(Evaluate(snap, now))) == CheckSession(n, snap)
  {
    assert SessionRecord(n.captured, n.runtime);
  }

  lemma ChecksOverNumbers(n: Machine, snap: Snapshot)
    ensures ActiveFault(snap) ==
              if NonZero(snap, "fault_code_1") then
                Some(FaultReported("fault_code_1", snap.telemetry["fault_code_1"].raw))
              else if NonZero(snap, "fault_code_2") then
                Some(FaultReported("fault_code_2", snap.telemetry["fault_code_2"].raw))
              else None
    ensures GridAvailable(snap) <==> OnGrid(snap)
  {
  }

  /** An evaluation leaves such a session alone exactly when there is no fault, the grid is there, and the charge is
      unknown or below the target.  Otherwise it ends the session: failed for the first fault, else cancelled for the
      grid, else completed at the target. */
  lemma EvaluateDecides(m: Machine, es: seq<Event>, snap: Snapshot, now: int)
    requires Initial(m) && Due(Run(m, es), snap, now)
    ensures var n := Run(m, es);
            var call := Evaluate(snap, now);
            var fault1, fault2 := NonZero(snap, "fault_code_1"), NonZero(snap, "fault_code_2");
            var grid, full := OnGrid(snap), Reaches(snap, "battery_soc", n.runtime.settings.targetSOC as real);
            && (Next(n, Invoke(call)) == n <==> !fault1 && !fault2 && grid && !full)
            && (fault1 ==> Restores(n, call, FaultReported("fault_code_1", snap.telemetry["fault_code_1"].raw), Failed))
            && (!fault1 && fault2 ==>
                  Restores(n, call, FaultReported("fault_code_2", snap.telemetry["fault_code_2"].raw), Failed))
            && (!fault1 && !fault2 && !grid ==> Restores(n, call, GridLost, Cancelled))
            && (!fault1 && !fault2 && grid && full ==> Restores(n, call, TargetReached, Completed))
  {
    RunKeepsInv(m, es);
    var n := Run(m, es);
    var call := Evaluate(snap, now);
    DueMeansChecked(n, snap, now);
    ChecksOverNumbers(n, snap);
    if NonZero(snap, "fault_code_1") {
      BegunRestores(n, call, FaultReported("fault_code_1", snap.telemetry["fault_code_1"].raw), Failed);
    } else if NonZero(snap, "fault_code_2") {
      BegunRestores(n, call, FaultReported("fault_code_2", snap.telemetry["fault_code_2"].raw), Failed);
    } else if !OnGrid(snap) {
      BegunRestores(n, call, GridLost, Cancelled);
    } else if Reaches(snap, "battery_soc", n.runtime.settings.targetSOC as real) {
      BegunRestores(n, call, TargetReached, Completed);
    }
  }

  /** Without Modbus, without all the telemetry it needs, or without a session, an evaluation waits. */
  lemma EvaluateWaits(m: Machine, es: seq<Event>, snap: Snapshot, now: int)
    requires Initial(m) && Run(m, es).task == Rest
    requires var n := Run(m, es);
             || !n.runtime.active
             || (!snap.connected && (n.resumePending || n.runtime.phase == Restoring))
             || (snap.connected && !Complete(snap) && n.runtime.phase != Restoring
                 && n.runtime.startedAt.Some? && now < n.runtime.startedAt.value + n.runtime.settings.timeout)
    ensures Next(Run(m, es), Invoke(Evaluate(snap, now))) == Run(m, es)
  {
    RunKeepsInv(m, es);
    var n := Run(m, es);
    if n.runtime.active {
      assert SessionRecord(n.captured, n.runtime);
    }
  }

  /** At its deadline, and for a user, a session that is not restoring yet ends as timed out and as cancelled. */
  lemma DeadlineAndCancel(m: Machine, es: seq<Event>, snap: Snapshot, now: int)
    requires Initial(m) && Run(m, es).task == Rest && Run(m, es).runtime.active
    ensures Restores(Run(m, es), Cancel, ManualCancel, Cancelled)
    ensures var n := Run(m, es);
            snap.connected && n.runtime.phase != Restoring
            && n.runtime.startedAt.Some? && now >= n.runtime.startedAt.value + n.runtime.settings.timeout ==>
              Restores(n, Evaluate(snap, now), DeadlinePassed, TimedOut)
  {
    RunKeepsInv(m, es);
    var n := Run(m, es);
    assert SessionRecord(n.captured, n.runtime);
    BegunRestores(n, Cancel, ManualCancel, Cancelled);
    if snap.connected && n.runtime.phase != Restoring && now >= n.runtime.startedAt.value + n.runtime.settings.timeout {
      BegunRestores(n, Evaluate(snap, now), DeadlinePassed, TimedOut);
    }
  }

  /** A session that loses Modbus waits, and ends as failed once Modbus is back. */
  lemma LostThenFailed(m: Machine, es: seq<Event>, lost: Snapshot, now: int, saved: Outcome, back: Snapshot, later: int)
    requires Initial(m) && !lost.connected && back.connected
    requires var n := Run(m, es);
             n.task == Rest && n.runtime.active && n.runtime.phase in {Starting, Charging} && !n.resumePending
    ensures var n := Run(m, es);
            var w := Run(n, [Invoke(Evaluate(lost, now)), Io(saved)]);
            && w.task == Rest && w.device == n.device && w.captured == n.captured
            && w.runtime == n.runtime.(phase := Restoring, reason := ModbusLost)
            && Restores(w, Evaluate(back, later), ModbusLost, Failed)
  {
    RunKeepsInv(m, es);
    var n := Run(m, es);
    var t := n.(runtime := n.runtime.(phase := Restoring, reason := ModbusLost), task := SaveAndRest);
    var w := t.(file := Saved(t, saved), task := Rest);
    var two := [Invoke(Evaluate(lost, now)), Io(saved)];
    assert two == [two[0]] + [two[1]];
    RunFrom(n, two[0], [two[1]]);
    assert Next(n, two[0]) == t && Next(t, two[1]) == w;
    assert Run(t, [two[1]]) == Run(w, []);
    InvKept(n, two[0]);
    InvKept(t, two[1]);
    BackAgain(w, back, later);
  }

  lemma BackAgain(w: Machine, snap: Snapshot, now: int)
    requires Inv(w) && w.task == Rest && w.runtime.active && w.runtime.phase == Restoring && snap.connected
    ensures Restores(w, Evaluate(snap, now), w.runtime.reason, FinalPhase(w.runtime.reason))
  {
    BegunRestores(w, Evaluate(snap, now), w.runtime.reason, FinalPhase(w.runtime.reason));
  }

  // ----- starts and resumptions that fail -----

  /** A start whose k-th storm write fails undoes what it has done: whatever becomes of the save in between, eleven
      successful actions later the captured words are back and the session has ended as failed. */
  lemma FailedStartRollsBack(n: Machine, o: Outcome, saved: Outcome)
    requires Inv(n) && n.task.ApplyWrite? && n.task.how.Fresh? && Encodable(n.captured)
    requires !WriteSucceeds(StormWord(n.runtime.settings, n.task.k), o)
    ensures Ended(n.captured, StartFailed, Failed, Run(n, [Io(o)] + ([Io(saved)] + Successes(11))))
  {
    var a := Next(n, Io(o));
    var b := Next(a, Io(saved));
    RunFrom(n, Io(o), [Io(saved)] + Successes(11));
    RunFrom(a, Io(saved), Successes(11));
    InvKept(n, Io(o));
    InvKept(a, Io(saved));
    RestoreCompletes(b);
    RolledBackIsEnded(n.captured, StartFailed, Failed, Run(b, Successes(11)));
  }

  /** So does a start whose last save fails. */
  lemma UnsavedStartRollsBack(n: Machine, o: Outcome)
    requires Inv(n) && n.task.SaveStarted? && o != Done && Encodable(n.captured)
    ensures Ended(n.captured, PersistenceFailed, Failed, Run(n, [Io(o)] + Successes(11)))
  {
    var b := Next(n, Io(o));
    RunFrom(n, Io(o), Successes(11));
    InvKept(n, Io(o));
    RestoreCompletes(b);
    RolledBackIsEnded(n.captured, PersistenceFailed, Failed, Run(b, Successes(11)));
  }

  /** A resumption that fails to write leaves the session restoring, to be ended as failed. */
  lemma FailedResumeRestores(n: Machine, o: Outcome, saved: Outcome, snap: Snapshot, now: int)
    requires Inv(n) && n.task.ApplyWrite? && n.task.how.Resumed? && snap.connected
    requires !WriteSucceeds(StormWord(n.runtime.settings, n.task.k), o)
    ensures var w := Run(n, [Io(o), Io(saved)]);
            && w.task == Rest && w.runtime == n.runtime.(phase := Restoring, reason := ResumeFailed)
            && Restores(w, Evaluate(snap, now), ResumeFailed, Failed)
  {
    var a := Next(n, Io(o));
    var w := Next(a, Io(saved));
    var two := [Io(o), Io(saved)];
    assert two == [two[0]] + [two[1]];
    RunFrom(n, two[0], [two[1]]);
    assert Run(a, [two[1]]) == Run(w, []);
    InvKept(n, two[0]);
    InvKept(a, two[1]);
    BackAgain(w, snap, now);
  }

  /** A resumption in which nothing fails writes the whole storm image again and goes on as an evaluation of a charging
      session would. */
  lemma {:induction false} ResumeWrites(n: Machine, snap: Snapshot, now: int)
    requires n.task.ApplyWrite? && n.task.how == Resumed(snap, now)
    requires Appliable(n.runtime.settings) && StormUpTo(n, n.task.k)
    ensures var w := Run(n, Successes(9 - n.task.k));
            && w.task == SaveResumed(snap) && w.runtime == n.runtime.(phase := Charging) && !w.resumePending
            && w.captured == n.captured && StormUpTo(w, 9)
    decreases 9 - n.task.k
  {
    var t := Step(n, Done);
    assert StormWord(n.runtime.settings, n.task.k).Some?;
    RunSuccesses(n, 9 - n.task.k);
    if n.task.k < 8 {
      ResumeWrites(t, snap, now);
    }
  }

  lemma ResumeBegins(n: Machine, snap: Snapshot, now: int)
    requires Inv(n) && Due(n.(resumePending := false), snap, now) && n.resumePending
    ensures Next(n, Invoke(Evaluate(snap, now))) == n.(task := ApplyWrite(0, Resumed(snap, now)))
  {
    assert SessionRecord(n.captured, n.runtime);
  }

  /** The save that follows, and the checks after it, are those of an evaluation that finds the session at rest. */
  lemma ResumeChecks(w: Machine, snap: Snapshot, now: int, saved: Outcome)
    requires w.task == SaveResumed(snap) && Due(w.(task := Rest), snap, now)
    requires w.runtime.deadline == Some(w.runtime.startedAt.value + w.runtime.settings.timeout)
    ensures Next(w, Io(saved)) == Next(AtRest(w, saved), Invoke(Evaluate(snap, now)))
  {
    var q := AtRest(w, saved);
    assert Next(q, Invoke(Evaluate(snap, now))) == CheckSession(q, snap);
    CheckFromRest(w.(file := q.file), snap);
  }

  /** The machine once the save that it is about to make is over, at rest. */
  function AtRest(w: Machine, saved: Outcome): Machine {
    w.(file := if saved == Done then Some(w.runtime) else w.file, task := Rest)
  }

  lemma CheckFromRest(w: Machine, snap: Snapshot)
    ensures CheckSession(w, snap) == CheckSession(w.(task := Rest), snap)
  {
  }

  /** So is the session after the writes still due, since they change nothing it depends on. */
  lemma ResumeDue(n: Machine, w: Machine, snap: Snapshot, now: int)
    requires Due(n.(resumePending := false), snap, now)
    requires n.runtime.deadline == Some(n.runtime.startedAt.value + n.runtime.settings.timeout)
    requires w.runtime == n.runtime.(phase := Charging) && !w.resumePending
    ensures Due(w.(task := Rest), snap, now)
    ensures w.runtime.deadline == Some(w.runtime.startedAt.value + w.runtime.settings.timeout)
  {
  }

  lemma ResumeFrom(n: Machine, t: Machine, w: Machine, snap: Snapshot, now: int)
    requires Due(n.(resumePending := false), snap, now) && Appliable(n.runtime.settings)
    requires n.runtime.deadline == Some(n.runtime.startedAt.value + n.runtime.settings.timeout)
    requires t == n.(task := ApplyWrite(0, Resumed(snap, now))) && w == Run(t, Successes(9))
    ensures w.runtime == n.runtime.(phase := Charging) && !w.resumePending && StormUpTo(w, 9)
    ensures w.task == SaveResumed(snap)
  {
    ResumeWrites(t, snap, now);
  }

  lemma ResumeCompletesAt(n: Machine, snap: Snapshot, now: int, saved: Outcome)
    requires Inv(n) && Due(n.(resumePending := false), snap, now) && n.resumePending && Appliable(n.runtime.settings)
    ensures var w := Run(n, [Invoke(Evaluate(snap, now))] + Successes(9));
            && w.runtime == n.runtime.(phase := Charging) && !w.resumePending && StormUpTo(w, 9)
            && Next(w, Io(saved)) == Next(AtRest(w, saved), Invoke(Evaluate(snap, now)))
  {
    var call := Invoke(Evaluate(snap, now));
    var t := n.(task := ApplyWrite(0, Resumed(snap, now)));
    ResumeBegins(n, snap, now);
    DeadlineOf(n);
    RunFrom(n, call, Successes(9));
    var w := Run(t, Successes(9));
    ResumeFrom(n, t, w, snap, now);
    ResumeDue(n, w, snap, now);
    ResumeChecks(w, snap, now, saved);
  }

  /** In every run, an evaluation that resumes a session, if none of its writes fails, writes the whole storm image
      again and, whatever becomes of the save after them, goes on as an evaluation of the session at rest would. */
  lemma ResumeCompletes(m: Machine, es: seq<Event>, snap: Snapshot, now: int, saved: Outcome)
    requires Initial(m) && Due(Run(m, es).(resumePending := false), snap, now) && Run(m, es).resumePending
    requires Appliable(Run(m, es).runtime.settings)
    ensures var n := Run(m, es);
            var w := Run(n, [Invoke(Evaluate(snap, now))] + Successes(9));
            && w.runtime == n.runtime.(phase := Charging) && !w.resumePending && StormUpTo(w, 9)
            && Next(w, Io(saved)) == Next(AtRest(w, saved), Invoke(Evaluate(snap, now)))
  {
    RunKeepsInv(m, es);
    ResumeCompletesAt(Run(m, es), snap, now, saved);
  }

  lemma DeadlineOf(n: Machine)
    requires Inv(n) && n.task == Rest && n.runtime.active && n.runtime.phase != Restoring
    ensures n.runtime.startedAt.Some?
    ensures n.runtime.deadline == Some(n.runtime.startedAt.value + n.runtime.settings.timeout)
  {
    assert SessionRecord(n.captured, n.runtime);
  }

  // ----- restores that fail -----

  /** A restore whose first save fails goes on all the same, from the first write of the schedule. */
  lemma RestoreGoesOn(n: Machine, saved: Outcome)
    requires Inv(n) && n.task.SaveRestoring?
    ensures Next(n, Io(saved)) ==
              n.(file := if saved == Done then Some(n.runtime) else n.file,
                 task := UndoWrite(0, false, n.task.final, n.task.again))
  {
  }

  /** The schedule is restored first, its enable word before the slots if it was disabled and after them if not; then
      the mains limit and the cut-off. */
  lemma UndoOrder(p: Previous)
    requires |p.schedule| == 7
    ensures seq(9, k requires 0 <= k < 9 => UndoIndex(p, k) as int) ==
              if p.schedule[6] == 0 then [8, 2, 3, 4, 5, 6, 7, 1, 0] else [2, 3, 4, 5, 6, 7, 8, 1, 0]
  {
  }

  /** A write of the schedule that fails is the last one of the schedule, but the mains limit and the cut-off are tried
      all the same.  The session then stays as it is, and the failure is saved: once, and once more if it was an
      evaluation of a session that was restoring already. */
  lemma FailedUndoGoesOn(n: Machine, o: Outcome, mains: Outcome, cutoff: Outcome, saved: Outcome)
    requires n.task.UndoWrite? && n.task.k < 7
    requires !WriteSucceeds(UndoWord(n.runtime.previous, UndoIndex(n.runtime.previous, n.task.k)), o)
    ensures var a := Next(n, Io(o));
            var b := Next(a, Io(mains));
            var c := Next(b, Io(cutoff));
            var d := Next(c, Io(saved));
            var p := n.runtime.previous;
            && a.task == UndoWrite(7, true, n.task.final, n.task.again)
            && b.device == Written(a.device, 1, WordFor(MAINS_REGISTER, p.mainsA), mains)
            && c.device == Written(b.device, 0, WordFor(CUTOFF_REGISTER, p.cutoffSOC as real), cutoff)
            && c.task == SaveUndoErrors(n.task.again) && c.runtime == n.runtime
            && d.device == c.device && d.runtime == n.runtime
            && d.file == (if saved == Done then Some(n.runtime) else n.file)
            && d.task == (if n.task.again then SaveAndRest else Rest)
  {
    var a := Next(n, Io(o));
    ScheduleFails(n, o);
    SettingsTried(a, mains, cutoff);
    ErrorsSaved(Next(Next(a, Io(mains)), Io(cutoff)), saved);
  }

  lemma ScheduleFails(n: Machine, o: Outcome)
    requires n.task.UndoWrite? && n.task.k < 7
    requires !WriteSucceeds(UndoWord(n.runtime.previous, UndoIndex(n.runtime.previous, n.task.k)), o)
    ensures Next(n, Io(o)).task == UndoWrite(7, true, n.task.final, n.task.again)
    ensures Next(n, Io(o)).runtime == n.runtime && Next(n, Io(o)).file == n.file
  {
  }

  lemma SettingsTried(a: Machine, mains: Outcome, cutoff: Outcome)
    requires a.task.UndoWrite? && a.task.k == 7 && a.task.failed
    ensures var b := Next(a, Io(mains));
            var c := Next(b, Io(cutoff));
            var p := a.runtime.previous;
            && b.device == Written(a.device, 1, WordFor(MAINS_REGISTER, p.mainsA), mains)
            && c == b.(device := Written(b.device, 0, WordFor(CUTOFF_REGISTER, p.cutoffSOC as real), cutoff),
                       task := SaveUndoErrors(a.task.again))
            && b.runtime == a.runtime && b.file == a.file
  {
    var p := a.runtime.previous;
    var b := a.(device := Written(a.device, 1, WordFor(MAINS_REGISTER, p.mainsA), mains),
                task := UndoWrite(8, true, a.task.final, a.task.again));
    assert Next(a, Io(mains)) == b;
  }

  lemma ErrorsSaved(c: Machine, saved: Outcome)
    requires c.task.SaveUndoErrors?
    ensures Next(c, Io(saved)) ==
              c.(file := if saved == Done then Some(c.runtime) else c.file,
                 task := if c.task.again then SaveAndRest else Rest)
  {
  }

  /** When the last write succeeds and none before it failed, the session ends: inactive, in the phase asked for,
      without a deadline, and otherwise as it was.  If that cannot be saved, it is active and restoring again. */
  lemma LastUndoEnds(n: Machine, saved: Outcome)
    requires n.task.UndoWrite? && n.task.k == 8 && !n.task.failed
    requires UndoWord(n.runtime.previous, UndoIndex(n.runtime.previous, 8)).Some?
    ensures var a := Next(n, Io(Done));
            var b := Next(a, Io(saved));
            && a.runtime == n.runtime.(active := false, phase := n.task.final, deadline := None)
            && a.task == SaveStopped(n.task.again) && a.file == n.file && b.device == a.device
            && (saved == Done ==> b.file == Some(a.runtime) && b.runtime == a.runtime && b.task == Rest)
            && (saved != Done ==>
                  && b.file == n.file && b.runtime == a.runtime.(active := true, phase := Restoring)
                  && b.task == if n.task.again then SaveAndRest else Rest)
  {
  }

  /** A start whose undo record cannot be saved leaves nothing behind; one whose record is saved goes on to write. */
  lemma StartRecordSaved(n: Machine, saved: Outcome)
    requires n.task.SaveUndoRecord?
    ensures var t := Next(n, Io(saved));
            && t.device == n.device
            && (saved == Done ==>
                  && t.file == Some(n.runtime) && t.runtime == n.runtime && t.task == ApplyWrite(0, Fresh(n.task.now)))
            && (saved != Done ==>
                  && t.file == n.file && t.task == Rest
                  && t.runtime
                     == Runtime(2, false, Idle, Settings(0, 0.0, 0), Previous(0, 0.0, []), None, None, NoReason))
  {
  }

  // ----- others -----

  /** Others may write the nine words whenever no session is on, whether the process is up or not. */
  lemma OutsideWrites(m: Machine, words: Image)
    requires m.task == Rest || m.task == Down
    ensures Next(m, Outside(words)) ==
              if (if m.task == Rest then m.runtime.active else m.file.Some? && m.file.value.active) then m
              else m.(device := words)
  {
  }

  // ----- coming up -----

  /** A process comes up exactly on no file or on one that can be read and is of version 2, or of version 1 without a
      session; it then has the file's record, upgraded, a missing phase read as idle. */
  lemma BootDecides(m: Machine, readable: bool)
    requires m.task == Down
    ensures var n := Next(m, Boot(readable));
            var up := readable && (m.file.Some? ==>
                                     m.file.value.version == 2 || (m.file.value.version == 1 && !m.file.value.active));
            && (!up ==> n == m)
            && (up ==> n.task == Rest && n.device == m.device && n.file == m.file)
            && (up && m.file.Some? ==>
                  var r := m.file.value;
                  && n.runtime == r.(version := 2, phase := if r.phase == Unset then Idle else r.phase)
                  && n.resumePending == r.active)
            && (up && m.file.None? ==> !n.runtime.active && n.runtime.phase == Idle && !n.resumePending)
  {
  }
}
