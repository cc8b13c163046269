/** What the storm-charge invariant means for whole runs. */
module StormTheorems {
  import opened Common
  import opened Registers
  import opened StormCharge
  import opened StormInvariant

  function Run(m: Machine, es: seq<Event>): Machine
    decreases |es|
  {
    if es == [] then m else Run(Next(m, es[0]), es[1..])
  }

  lemma {:induction false} RunAppend(m: Machine, a: seq<Event>, b: seq<Event>)
    ensures Run(m, a + b) == Run(Run(m, a), b)
    decreases |a|
  {
    if a == [] {
      assert a + b == b;
    } else {
      assert (a + b)[1..] == a[1..] + b;
      RunAppend(Next(m, a[0]), a[1..], b);
    }
  }

  lemma {:induction false} RunKeepsInv(m: Machine, es: seq<Event>)
    requires Inv(m)
    ensures Inv(Run(m, es))
    decreases |es|
  {
    if es != [] {
      InvKept(m, es[0]);
      RunKeepsInv(Next(m, es[0]), es[1..]);
    }
  }

  // ----- safety -----

  /** Undo-log safety: as long as a storm write may have left its mark, the file holds the session and exactly what
      it captured, with a whole schedule. */
  lemma UndoLogSafety(m: Machine, es: seq<Event>)
    requires Initial(m)
    ensures var n := Run(m, es);
            n.dirty ==>
              && FileActive(n)
              && n.file.value.previous == n.captured
              && |n.captured.schedule| == 7
              && n.captured.schedule == n.origin[SCHEDULE..]
  {
    RunKeepsInv(m, es);
  }

  /** No run, whatever fails in it, ends a session unless all nine words are the captured ones; and the phase
      recorded then is the one the recorded reason calls for. */
  lemma SessionEndsRestored(m: Machine, es: seq<Event>, e: Event)
    requires Initial(m)
    ensures var n := Run(m, es);
            var n' := Next(n, e);
            FileActive(n) && !FileActive(n') ==>
              && AllUndone(n') && n'.captured == n.captured
              && n'.task == Rest && !n'.dirty
              && n'.file == Some(n'.runtime) && n'.runtime.phase == FinalPhase(n'.runtime.reason)
  {
    RunKeepsInv(m, es);
    var n := Run(m, es);
    InvKept(n, e);
    if FileActive(n) && !FileActive(Next(n, e)) {
      OnlyStoppingEnds(n, e);
      var n' := Next(n, e);
      forall i: Index ensures Undone(n', i) {
        assert Undone(n, i);
      }
    }
  }

  lemma OnlyStoppingEnds(m: Machine, e: Event)
    requires SoundSession(m) && FileActive(m) && !FileActive(Next(m, e))
    ensures m.task.SaveStopped? && e == Io(Done)
  {
    if e.Io? {
      FileBecomesMemory(m, e.outcome);
      assert Next(m, e).file == Some(m.runtime) && !m.runtime.active;
      if m.task.SaveStopped? && e.outcome != Done {
        StopSaves(m, e.outcome);
      }
    }
  }

  lemma StopSaves(m: Machine, o: Outcome)
    requires m.task.SaveStopped? && o != Done
    ensures Step(m, o).file == m.file
  {
  }

  /** Enable-bit safety: during a session that found timed charging disabled, it is only ever enabled with the whole
      storm schedule in place. */
  lemma EnableSafety(m: Machine, es: seq<Event>)
    requires Initial(m)
    ensures var n := Run(m, es);
            FileActive(n) && |n.captured.schedule| == 7 && n.captured.schedule[6] == 0 ==>
              n.device[ENABLE] == 0 || n.device[SCHEDULE..ENABLE] == STORM_SCHEDULE[..6]
  {
    RunKeepsInv(m, es);
    var n := Run(m, es);
    if FileActive(n) && n.captured.schedule[6] == 0 && n.device[ENABLE] != 0 {
      var slots := n.device[SCHEDULE..ENABLE];
      assert forall i :: 0 <= i < 6 ==> slots[i] == n.device[SCHEDULE + i] == STORM_SCHEDULE[i];
    }
  }

  /** The deadline of a session that is not yet restoring is its start plus its timeout, in memory and in the file,
      and storm settings are being written only on behalf of a call made before it. */
  lemma DeadlineKept(m: Machine, es: seq<Event>)
    requires Initial(m)
    ensures var n := Run(m, es);
            && (n.runtime.active && n.runtime.phase in {Starting, Charging} ==>
                  && n.runtime.startedAt.Some?
                  && n.runtime.deadline == Some(n.runtime.startedAt.value + n.runtime.settings.timeout))
            && (FileActive(n) && n.file.value.phase in {Starting, Charging} ==>
                  && n.file.value.startedAt.Some?
                  && n.file.value.deadline == Some(n.file.value.startedAt.value + n.file.value.settings.timeout))
            && (n.task.ApplyWrite? ==>
                  && FileActive(n) && n.file.value.startedAt.Some?
                  && AskedAt(n.task.how) < n.file.value.startedAt.value + n.file.value.settings.timeout)
  {
    RunKeepsInv(m, es);
  }

  /** Within one session nothing it depends on changes: neither what was captured nor when it began nor its
      settings, in any run; and a session that has ended does not come back. */
  lemma {:induction false} SessionConstant(m: Machine, es: seq<Event>)
    requires Inv(m)
    ensures Run(m, es).session >= m.session
    ensures Run(m, es).session == m.session ==> SessionSame(m, Run(m, es))
    decreases |es|
  {
    if es != [] {
      InvKept(m, es[0]);
      SessionConstantStep(m, es[0]);
      SessionConstant(Next(m, es[0]), es[1..]);
    }
  }

  lemma SessionConstantStep(m: Machine, e: Event)
    requires SoundSession(m)
    ensures Next(m, e).session >= m.session
    ensures Next(m, e).session == m.session ==> SessionSame(m, Next(m, e))
  {
    if e.Io? {
      SessionConstantIo(m, e.outcome);
    }
  }

  lemma SessionConstantIo(m: Machine, o: Outcome)
    requires SoundSession(m)
    ensures Step(m, o).session >= m.session
    ensures Step(m, o).session == m.session ==> SessionSame(m, Step(m, o))
  {
    if !m.task.SaveUndoRecord? {
      StepTouches(m, o);
      FileBecomesMemory(m, o);
      FileStaysInSession(m, Step(m, o));
    }
  }

  // ----- the restore ratchet -----

  /** The process is restoring, or idle, or about to record a new session: it will not write storm settings for the
      session it has. */
  predicate Settled(m: Machine) {
    match m.task
    case Rest => !m.runtime.active || m.runtime.phase == Restoring
    case Down | ApplyWrite(_, _) | SaveStarted | SaveResumed(_) => false
    case _ => true
  }

  predicate NoCrash(es: seq<Event>) {
    forall i :: 0 <= i < |es| ==> es[i] != Crash
  }

  /** What holds of a machine also holds of the next one as long as the session is the same. */
  ghost predicate KeptInSession(p: Machine -> bool, crashes: bool) {
    forall m, e :: p(m) && Inv(m) && (crashes || e != Crash) && Next(m, e).session == m.session ==> p(Next(m, e))
  }

  lemma {:induction false} WithinSession(m: Machine, es: seq<Event>, p: Machine -> bool, crashes: bool)
    requires Inv(m) && p(m) && KeptInSession(p, crashes) && (crashes || NoCrash(es))
    ensures Run(m, es).session == m.session ==> p(Run(m, es))
    decreases |es|
  {
    if es != [] {
      var n := Next(m, es[0]);
      InvKept(m, es[0]);
      SessionConstantStep(m, es[0]);
      SessionConstant(n, es[1..]);
      if n.session == m.session {
        WithinSession(n, es[1..], p, crashes);
      }
    }
  }

  /** Once a process is restoring a session, it writes no storm settings until another session is recorded. */
  lemma RestoreRatchet(m: Machine, before: seq<Event>, es: seq<Event>)
    requires Initial(m) && NoCrash(es)
    requires var r := Run(m, before); r.runtime.active && r.runtime.phase == Restoring
    ensures var r := Run(m, before);
            var n := Run(r, es);
            n.session == r.session ==> Settled(n) && !n.task.ApplyWrite?
  {
    RunKeepsInv(m, before);
    var r := Run(m, before);
    RestoringIsSettled(r);
    forall x, e | Settled(x) && Inv(x) && e != Crash && Next(x, e).session == x.session ensures Settled(Next(x, e)) {
      SettledStep(x, e);
    }
    WithinSession(r, es, Settled, false);
  }

  lemma RestoringIsSettled(m: Machine)
    requires SoundSession(m) && m.runtime.active && m.runtime.phase == Restoring
    ensures Settled(m)
  {
  }

  lemma SettledCall(m: Machine, call: Call)
    requires Settled(m) && m.task == Rest
    ensures Settled(Begin(m, call))
  {
  }

  lemma SettledFirstSave(m: Machine, o: Outcome)
    requires m.task.SaveUndoRecord?
    ensures Step(m, o).session == m.session ==> Settled(Step(m, o))
  {
  }

  lemma SettledUndo(m: Machine, o: Outcome)
    requires m.task.UndoWrite?
    ensures Settled(Step(m, o))
  {
  }

  lemma SettledSave(m: Machine, o: Outcome)
    requires m.task.SaveStartFailed? || m.task.SaveRestoring?
    ensures Settled(Step(m, o))
  {
  }

  lemma SettledLastSave(m: Machine, o: Outcome)
    requires SoundSession(m) && (m.task.SaveAndRest? || m.task.SaveUndoErrors? || m.task.SaveStopped?)
    ensures Settled(Step(m, o))
  {
  }

  lemma SettledStep(m: Machine, e: Event)
    requires SoundSession(m) && Settled(m) && e != Crash
    ensures Next(m, e).session == m.session ==> Settled(Next(m, e))
  {
    match e
    case Invoke(call) => if m.task == Rest { SettledCall(m, call); }
    case Io(o) =>
      match m.task {
        case SaveUndoRecord(_) => SettledFirstSave(m, o);
        case UndoWrite(_, _, _, _) => SettledUndo(m, o);
        case SaveStartFailed | SaveRestoring(_, _) => SettledSave(m, o);
        case SaveAndRest | SaveUndoErrors(_) | SaveStopped(_) => SettledLastSave(m, o);
        case _ =>
      }
    case _ =>
  }

  predicate SettledOnDisk(m: Machine) {
    (m.task == Down || Settled(m)) && (FileActive(m) ==> m.file.value.phase == Restoring)
  }

  /** Once the file says "restoring", no run of crashes, boots, evaluations and cancellations writes storm settings
      for that session again. */
  lemma RestoreRatchetOnDisk(m: Machine, before: seq<Event>, es: seq<Event>)
    requires Initial(m)
    requires var r := Run(m, before); FileActive(r) && r.file.value.phase == Restoring
    ensures var r := Run(m, before);
            var n := Run(r, es);
            n.session == r.session ==> SettledOnDisk(n) && !n.task.ApplyWrite?
  {
    RunKeepsInv(m, before);
    var r := Run(m, before);
    RestoringOnDisk(r);
    forall x, e | SettledOnDisk(x) && Inv(x) && Next(x, e).session == x.session ensures SettledOnDisk(Next(x, e)) {
      SettledOnDiskStep(x, e);
    }
    WithinSession(r, es, SettledOnDisk, true);
  }

  lemma RestoringOnDisk(m: Machine)
    requires SoundSession(m) && Ratcheted(m) && FileActive(m) && m.file.value.phase == Restoring
    ensures SettledOnDisk(m)
  {
    if m.runtime.active && m.runtime.phase == Restoring {
      RestoringIsSettled(m);
    }
  }

  lemma DiskAfterStep(m: Machine, o: Outcome)
    requires SoundSession(m) && SettledOnDisk(m) && !m.task.Down?
    ensures Step(m, o).session == m.session && FileActive(Step(m, o)) ==> Step(m, o).file.value.phase == Restoring
  {
    FileBecomesMemory(m, o);
    if m.task.SaveUndoRecord? && o != Done {
      assert Step(m, o).file == m.file;
    }
  }

  lemma SettledOnDiskStep(m: Machine, e: Event)
    requires SoundSession(m) && SettledOnDisk(m)
    ensures Next(m, e).session == m.session ==> SettledOnDisk(Next(m, e))
  {
    if Settled(m) && e != Crash {
      SettledStep(m, e);
    }
    if e.Io? && !m.task.Down? {
      DiskAfterStep(m, e.outcome);
    }
  }
}
