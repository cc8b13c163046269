/** Rolling back always works: from every state a run can reach, the captured words can be put back. */
module StormRecovery {
  import opened Common
  import opened Registers
  import opened StormCharge
  import opened StormInvariant
  import opened StormTheorems

  /** Every captured value can be written back. */
  predicate Encodable(p: Previous) {
    forall i: Index :: UndoWord(p, i).Some?
  }

  /** `n` actions in a row that all succeed. */
  function Successes(n: nat): seq<Event> {
    if n == 0 then [] else [Io(Done)] + Successes(n - 1)
  }

  lemma RunSuccesses(m: Machine, n: nat)
    requires n > 0
    ensures Run(m, Successes(n)) == Run(Step(m, Done), Successes(n - 1))
  {
    assert Successes(n)[1..] == Successes(n - 1);
  }

  lemma RunFrom(m: Machine, e: Event, es: seq<Event>)
    ensures Run(m, [e] + es) == Run(Next(m, e), es)
  {
    assert ([e] + es)[1..] == es;
  }

  /** The session of `m` has been rolled back in `n`: nine captured words on the inverter, nothing active in memory or
      in the file, and the phase that the reason calls for. */
  predicate RolledBack(captured: Previous, reason: Reason, n: Machine) {
    && n.captured == captured && AllUndone(n) && !n.dirty
    && n.task == Rest && !n.runtime.active && n.file == Some(n.runtime)
    && n.runtime.reason == reason && n.runtime.phase == FinalPhase(reason)
  }

  /** A restore under way in which nothing has failed. */
  predicate Undoing(m: Machine) {
    && m.runtime.previous == m.captured && |m.captured.schedule| == 7
    && match m.task
       case SaveRestoring(final, _) => final == FinalPhase(m.runtime.reason)
       case UndoWrite(k, failed, final, _) => !failed && final == FinalPhase(m.runtime.reason) && UndoProgress(m)
       case _ => false
  }

  lemma UndoStep(m: Machine)
    requires Undoing(m) && m.task.UndoWrite? && Encodable(m.captured)
    ensures var n := Step(m, Done);
            && n.captured == m.captured && n.resumePending == m.resumePending && n.session == m.session
            && n.runtime.reason == m.runtime.reason
            && (m.task.k < 8 ==> Undoing(n) && n.task.UndoWrite? && n.task.k == m.task.k + 1)
            && (m.task.k == 8 ==> n.task.SaveStopped? && AllUndone(n) && !n.dirty && !n.runtime.active
                                  && n.runtime.phase == FinalPhase(n.runtime.reason))
  {
    var n := Step(m, Done);
    assert UndoWord(m.captured, UndoIndex(m.captured, m.task.k)).Some?;
    if m.task.k == 8 {
      forall i: Index ensures Undone(n, i) {
        var k := UndoIndexCovers(m.captured, i);
      }
    }
  }

  lemma StoppedIsRolledBack(m: Machine)
    requires m.task.SaveStopped? && AllUndone(m) && !m.dirty && !m.runtime.active
    requires m.runtime.phase == FinalPhase(m.runtime.reason)
    ensures var n := Run(m, Successes(1));
            RolledBack(m.captured, m.runtime.reason, n) && n.resumePending == m.resumePending && n.session == m.session
  {
    RunSuccesses(m, 1);
    forall i: Index ensures Undone(Step(m, Done), i) {
      assert Undone(m, i);
    }
  }

  /** One successful write of a restore, as the beginning of a run. */
  lemma UndoAdvance(m: Machine) returns (n: Machine)
    requires Undoing(m) && m.task.UndoWrite? && Encodable(m.captured)
    ensures n.captured == m.captured && n.resumePending == m.resumePending && n.session == m.session
    ensures n.runtime.reason == m.runtime.reason
    ensures m.task.k < 8 ==> Undoing(n) && n.task.UndoWrite? && n.task.k == m.task.k + 1
    ensures m.task.k == 8 ==> n.task.SaveStopped? && AllUndone(n) && !n.dirty && !n.runtime.active
                              && n.runtime.phase == FinalPhase(n.runtime.reason)
    ensures Run(m, Successes(10 - m.task.k)) == Run(n, Successes(9 - m.task.k))
  {
    n := Step(m, Done);
    UndoStep(m);
    RunSuccesses(m, 10 - m.task.k);
  }

  lemma {:induction false} UndoCompletes(m: Machine)
    requires Undoing(m) && m.task.UndoWrite? && Encodable(m.captured)
    ensures var n := Run(m, Successes(10 - m.task.k));
            RolledBack(m.captured, m.runtime.reason, n) && n.resumePending == m.resumePending && n.session == m.session
    decreases 9 - m.task.k
  {
    var n := UndoAdvance(m);
    if m.task.k < 8 {
      UndoCompletes(n);
    } else {
      StoppedIsRolledBack(n);
    }
  }

  lemma RestoreCompletes(m: Machine)
    requires Undoing(m) && m.task.SaveRestoring? && Encodable(m.captured)
    ensures var n := Run(m, Successes(11));
            RolledBack(m.captured, m.runtime.reason, n) && n.resumePending == m.resumePending && n.session == m.session
  {
    RunSuccesses(m, 11);
    UndoCompletes(Step(m, Done));
  }

  /** One call that begins a restore, followed by eleven successful actions, rolls the session back. */
  lemma CallRollsBack(m: Machine, call: Call)
    requires Inv(m) && m.task == Rest && Begin(m, call).task.SaveRestoring? && Encodable(m.captured)
    ensures var n := Run(m, [Invoke(call)] + Successes(11));
            && RolledBack(m.captured, Begin(m, call).runtime.reason, n)
            && n.resumePending == m.resumePending && n.session == m.session
  {
    RunFrom(m, Invoke(call), Successes(11));
    RestoreBegun(m, call);
    RestoreCompletes(Begin(m, call));
  }

  lemma RestoreBegun(m: Machine, call: Call)
    requires Inv(m) && m.task == Rest && Begin(m, call).task.SaveRestoring?
    ensures var n := Begin(m, call);
            Undoing(n) && n.captured == m.captured && n.session == m.session && n.resumePending == m.resumePending
  {
    SessionKept(m, Invoke(call));
    BeginKeepsCapture(m, call);
  }

  lemma BeginKeepsCapture(m: Machine, call: Call)
    ensures var n := Begin(m, call);
            n.captured == m.captured && n.session == m.session && n.resumePending == m.resumePending
  {
  }

  /** Convergence: whatever mix of storm and captured words a run has left on the inverter, one evaluation of a
      restoring session in which nothing fails puts all nine back and ends the session. */
  lemma Convergence(m: Machine, es: seq<Event>, snap: Snapshot, now: int)
    requires Initial(m)
    requires var n := Run(m, es);
             n.task == Rest && n.runtime.active && n.runtime.phase == Restoring && Encodable(n.captured)
    requires snap.connected
    ensures var n := Run(m, es);
            RolledBack(n.captured, n.runtime.reason, Run(n, [Invoke(Evaluate(snap, now))] + Successes(11)))
  {
    RunKeepsInv(m, es);
    CallRollsBack(Run(m, es), Evaluate(snap, now));
  }

  /** The first connected evaluation at or after the deadline, if nothing fails in it, ends the session. */
  lemma DeadlineEnds(m: Machine, es: seq<Event>, snap: Snapshot, now: int)
    requires Initial(m)
    requires var n := Run(m, es);
             && n.task == Rest && FileActive(n) && Encodable(n.captured)
             && n.file.value.startedAt.Some?
             && now >= n.file.value.startedAt.value + n.file.value.settings.timeout
    requires snap.connected
    ensures var n := Run(m, es);
            var reason := if n.runtime.phase == Restoring then n.runtime.reason else DeadlinePassed;
            RolledBack(n.captured, reason, Run(n, [Invoke(Evaluate(snap, now))] + Successes(11)))
  {
    RunKeepsInv(m, es);
    CallRollsBack(Run(m, es), Evaluate(snap, now));
  }

  /** From any point of any run, in the middle of any action: crash, start again, cancel, and the words are back. */
  lemma RecoveryFromAnywhere(m: Machine, es: seq<Event>)
    requires Initial(m)
    requires FileActive(Run(m, es)) && Encodable(Run(m, es).captured)
    ensures var n := Run(m, es);
            var end := Run(n, [Crash] + ([Boot(true)] + ([Invoke(Cancel)] + Successes(11))));
            RolledBack(n.captured, ManualCancel, end) && end.resumePending && end.session == n.session
  {
    RunKeepsInv(m, es);
    CrashBootCancel(Run(m, es));
  }

  lemma CrashBootCancel(n: Machine)
    requires Inv(n) && FileActive(n) && Encodable(n.captured)
    ensures var end := Run(n, [Crash] + ([Boot(true)] + ([Invoke(Cancel)] + Successes(11))));
            RolledBack(n.captured, ManualCancel, end) && end.resumePending && end.session == n.session
  {
    var down := Next(n, Crash);
    var up := Next(down, Boot(true));
    InvKept(n, Crash);
    InvKept(down, Boot(true));
    RunFrom(n, Crash, [Boot(true)] + ([Invoke(Cancel)] + Successes(11)));
    RunFrom(down, Boot(true), [Invoke(Cancel)] + Successes(11));
    assert up.captured == n.captured && up.session == n.session && up.resumePending;
    CallRollsBack(up, Cancel);
  }

  // ----- exactly when a session can end -----

  lemma {:induction false} EndedMeansEncodable(n: Machine, es: seq<Event>)
    requires Inv(n) && FileActive(n)
    requires Run(n, es).session == n.session && !FileActive(Run(n, es))
    ensures Encodable(n.captured)
    decreases |es|
  {
    var n' := Next(n, es[0]);
    InvKept(n, es[0]);
    SessionConstantStep(n, es[0]);
    SessionConstant(n', es[1..]);
    if FileActive(n') {
      EndedMeansEncodable(n', es[1..]);
    } else {
      OnlyStoppingEnds(n, es[0]);
      forall i: Index ensures UndoWord(n.captured, i).Some? {
        assert Undone(n, i);
      }
    }
  }

  /** A session can be ended, by some continuation of the run, exactly when the codec accepts every value it
      captured; otherwise every restore is refused, and the session stays active for good. */
  lemma SessionCanEnd(m: Machine, es: seq<Event>)
    requires Initial(m) && FileActive(Run(m, es))
    ensures var n := Run(m, es);
            Encodable(n.captured) <==> exists more :: Run(n, more).session == n.session && !FileActive(Run(n, more))
  {
    RunKeepsInv(m, es);
    var n := Run(m, es);
    if Encodable(n.captured) {
      CrashBootCancel(n);
      var more := [Crash] + ([Boot(true)] + ([Invoke(Cancel)] + Successes(11)));
      assert Run(n, more).session == n.session && !FileActive(Run(n, more));
    }
    forall more | Run(n, more).session == n.session && !FileActive(Run(n, more))
      ensures Encodable(n.captured)
    {
      EndedMeansEncodable(n, more);
    }
  }

  // ----- exact words -----

  /** Telemetry shows the two managed settings as the codec decodes them from the inverter's words. */
  predicate TelemetryAgrees(snap: Snapshot, device: Image) {
    && Numeric(snap, "battery_charge_cutoff_soc") == Some(Times(device[CUTOFF], 1.0))
    && Numeric(snap, "mains_charge_current_limit") == Some(Times(device[MAINS], 0.1))
  }

  function Capture(snap: Snapshot, device: Image): Previous
    requires TelemetryAgrees(snap, device)
  {
    Previous(Truncate(Numeric(snap, "battery_charge_cutoff_soc").value),
             Numeric(snap, "mains_charge_current_limit").value, device[SCHEDULE..])
  }

  /** On a register stepped by its own scale from zero, the codec writes back every multiple within bounds. */
  lemma MultipleIsExact(r: Register, unit: int, max: nat, w: Word)
    requires ExactGrid(r, 0, 1, unit) && r.kind == Uint16 && r.writable && ScaleOf(r) > TOLERANCE
    requires r.writeMax == Times(max, ScaleOf(r)) && max > 0
    ensures WordFor(r, Times(w, ScaleOf(r))) == if w <= max then Some(w) else None
  {
    var s := ScaleOf(r);
    var value := Times(w, s);
    assert GridPoint(0, 1, w) == w;
    EncodedMultiple(r, w, value);
    AcceptableMultiple(r, 0, 1, unit, w, value);
    MultiplesInOrder(max, w, s);
    assert r.writeMin == 0.0;
    assert Acceptable(r, value) <==> w <= max;
  }

  lemma MultipleAbove(x: real, y: real, s: real)
    requires s > 0.0 && y >= x + 1.0
    ensures Product(y, s) > Product(x, s)
  {
    var d := y - x - 1.0;
    assert d * s >= 0.0;
    assert d * s == y * s - x * s - s;
  }

  lemma MultiplesInOrder(m: nat, n: nat, s: real)
    requires s > 0.0
    ensures 0.0 <= Times(n, s) && (m > 0 ==> Times(m, s) > 0.0)
    ensures Times(n, s) <= Times(m, s) <==> n <= m
  {
    if n > 0 {
      MultipleAbove(0.0, n as real, s);
    }
    if m > 0 {
      MultipleAbove(0.0, m as real, s);
    }
    if n < m {
      MultipleAbove(n as real, m as real, s);
    } else if m < n {
      MultipleAbove(m as real, n as real, s);
    }
  }

  /** What is captured from honest telemetry is put back word for word exactly when the two settings were within
      their write bounds. */
  lemma CaptureIsExact(snap: Snapshot, device: Image)
    requires TelemetryAgrees(snap, device)
    ensures device[CUTOFF] <= 100 && device[MAINS] <= 1200
            <==> forall i: Index :: UndoWord(Capture(snap, device), i) == Some(device[i])
    ensures device[CUTOFF] <= 100 && device[MAINS] <= 1200 <==> Encodable(Capture(snap, device))
  {
    var p := Capture(snap, device);
    CutoffIsExact(device[CUTOFF]);
    MainsIsExact(device[MAINS]);
    assert Times(device[CUTOFF], 1.0) == device[CUTOFF] as real;
    assert p.cutoffSOC == device[CUTOFF];
    assert UndoWord(p, CUTOFF) == if device[CUTOFF] <= 100 then Some(device[CUTOFF]) else None;
    assert UndoWord(p, MAINS) == if device[MAINS] <= 1200 then Some(device[MAINS]) else None;
    assert forall i: Index :: i >= SCHEDULE ==> UndoWord(p, i) == Some(device[i]);
  }

  lemma CutoffIsExact(w: Word)
    ensures WordFor(CUTOFF_REGISTER, Times(w, 1.0)) == if w <= 100 then Some(w) else None
  {
    assert Pow10(0) == 1.0 && Times(100, 1.0) == 100.0;
    MultipleIsExact(CUTOFF_REGISTER, 1, 100, w);
  }

  lemma MainsIsExact(w: Word)
    ensures WordFor(MAINS_REGISTER, Times(w, 0.1)) == if w <= 1200 then Some(w) else None
  {
    assert Pow10(1) == 10.0 * Pow10(0) && Times(1200, 0.1) == 120.0;
    MultipleIsExact(MAINS_REGISTER, 1, 1200, w);
  }
}
