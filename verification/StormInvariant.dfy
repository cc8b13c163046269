/** What holds after every I/O action of every run of the storm-charge machine, crashes included. */
module StormInvariant {
  import opened Common
  import opened StormCharge

  /** A runtime record of the session whose settings were captured. */
  predicate SessionRecord(captured: Previous, r: Runtime) {
    && r.version == 2 && r.active
    && r.previous == captured && |captured.schedule| == 7
    && ValidSettings(r.settings)
    && r.phase in {Starting, Charging, Restoring}
    && r.startedAt.Some?
    && (r.phase != Restoring ==> r.deadline == Some(r.startedAt.value + r.settings.timeout))
  }

  /** Memory and file describe one and the same session. */
  predicate InSession(m: Machine, r: Runtime) {
    && FileActive(m)
    && SessionRecord(m.captured, r)
    && r.settings == m.file.value.settings && r.startedAt == m.file.value.startedAt
  }

  function AskedAt(how: Applying): int {
    match how case Fresh(now) => now case Resumed(_, now) => now
  }

  predicate MemoryMatchesTask(m: Machine) {
    var r := m.runtime;
    match m.task
    case Down => !r.active
    case Rest => if FileActive(m) then InSession(m, r) else !r.active
    case SaveUndoRecord(now) =>
      && !FileActive(m) && SessionRecord(r.previous, r) && r.phase == Starting
      && r.startedAt == Some(now) && r.previous.schedule == m.device[SCHEDULE..]
    case ApplyWrite(_, how) =>
      && InSession(m, r) && r.phase != Restoring && AskedAt(how) < r.deadline.value
      && (how.Fresh? ==> r.startedAt == Some(AskedAt(how)))
    case SaveStarted | SaveResumed(_) => InSession(m, r) && r.phase == Charging
    case SaveStartFailed | SaveAndRest | SaveUndoErrors(_) => InSession(m, r) && r.phase == Restoring
    case SaveRestoring(final, _) => InSession(m, r) && r.phase == Restoring && final == FinalPhase(r.reason)
    case UndoWrite(_, _, final, _) => InSession(m, r) && r.phase == Restoring && final == FinalPhase(r.reason)
    case SaveStopped(_) =>
      && InSession(m, r.(active := true, phase := Restoring))
      && !r.active && r.phase == FinalPhase(r.reason) && r.deadline == None && !m.dirty
  }

  predicate FileSound(m: Machine) {
    && Loadable(m.file)
    && (FileActive(m) ==> SessionRecord(m.captured, m.file.value) && m.captured.schedule == m.origin[SCHEDULE..])
    && (m.dirty ==> FileActive(m))
  }

  predicate SoundSession(m: Machine) {
    FileSound(m) && MemoryMatchesTask(m)
  }

  /** A file that says "restoring" is never behind a process that is not. */
  predicate Ratcheted(m: Machine) {
    FileActive(m) && m.file.value.phase == Restoring ==>
      m.task.Down? || m.task.SaveStopped? || m.runtime.phase == Restoring
  }

  predicate Undone(m: Machine, i: Index) {
    UndoWord(m.captured, i) == Some(m.device[i])
  }

  predicate AllUndone(m: Machine) {
    forall i: Index :: Undone(m, i)
  }

  /** How far a restore that has not failed has got. */
  predicate UndoProgress(m: Machine) {
    match m.task
    case UndoWrite(k, failed, _, _) =>
      && (k < 7 ==> !failed)
      && (!failed ==> forall j: Index :: j < k ==> Undone(m, UndoIndex(m.captured, j)))
    case SaveStopped(_) => AllUndone(m)
    case _ => true
  }

  predicate StormSlots(device: Image, n: nat)
    requires n <= 6
  {
    forall i :: 0 <= i < n ==> device[SCHEDULE + i] == STORM_SCHEDULE[i]
  }

  /** Enabled means that all six slot words are the storm schedule's. */
  predicate EnabledOnlyForStorm(device: Image) {
    device[ENABLE] != 0 ==> StormSlots(device, 6)
  }

  predicate EnableSafe(m: Machine) {
    && (m.task.ApplyWrite? && m.task.k >= SCHEDULE ==> StormSlots(m.device, m.task.k - SCHEDULE))
    && (FileActive(m) && |m.captured.schedule| == 7 && m.captured.schedule[6] == 0 ==> EnabledOnlyForStorm(m.device))
  }

  predicate Inv(m: Machine) {
    SoundSession(m) && Ratcheted(m) && UndoProgress(m) && EnableSafe(m)
  }

  /** The last checks of an evaluation either leave the session as it is or begin to restore it, and then the final
      phase they ask for is the one their reason calls for. */
  lemma CheckSessionOutcome(m: Machine, snap: Snapshot) returns (final: Phase, reason: Reason)
    ensures CheckSession(m, snap) == m.(task := Rest)
            || (CheckSession(m, snap) == BeginRestore(m, final, reason, false) && final == FinalPhase(reason))
  {
    final, reason := Failed, StartFailed;
    if ActiveFault(snap).Some? {
      final, reason := Failed, ActiveFault(snap).value;
    } else if !GridAvailable(snap) {
      final, reason := Cancelled, GridLost;
    } else {
      final, reason := Completed, TargetReached;
    }
  }

  lemma BeginStartKept(m: Machine, settings: Settings, snap: Snapshot, readable: bool, now: int)
    requires SoundSession(m) && m.task == Rest
    ensures SoundSession(BeginStart(m, settings, snap, readable, now))
  {
  }

  lemma BeginRestoreKept(m: Machine, final: Phase, reason: Reason, again: bool)
    requires SoundSession(m) && m.task == Rest && m.runtime.active && final == FinalPhase(reason)
    ensures SoundSession(BeginRestore(m, final, reason, again))
  {
  }

  lemma BeginEvaluateKept(m: Machine, snap: Snapshot, now: int)
    requires SoundSession(m) && m.task == Rest
    ensures SoundSession(BeginEvaluate(m, snap, now))
  {
    if m.runtime.active && snap.connected {
      if m.runtime.phase == Restoring {
        BeginRestoreKept(m, FinalPhase(m.runtime.reason), m.runtime.reason, true);
      } else if Expired(m.runtime, now) {
        BeginRestoreKept(m, TimedOut, DeadlinePassed, false);
      } else if HasRequiredTelemetry(snap) && !m.resumePending {
        var final, reason := CheckSessionOutcome(m, snap);
        if CheckSession(m, snap) != m {
          BeginRestoreKept(m, final, reason, false);
        }
      }
    }
  }

  lemma ApplyKept(m: Machine, o: Outcome)
    requires SoundSession(m) && m.task.ApplyWrite?
    ensures SoundSession(Step(m, o))
  {
  }

  lemma UndoWriteKept(m: Machine, o: Outcome)
    requires SoundSession(m) && m.task.UndoWrite?
    ensures SoundSession(Step(m, o))
  {
  }

  lemma FirstSaveKept(m: Machine, o: Outcome)
    requires SoundSession(m) && (m.task.SaveUndoRecord? || m.task.SaveStarted?)
    ensures SoundSession(Step(m, o))
  {
  }

  lemma RestoringSaveKept(m: Machine, o: Outcome)
    requires SoundSession(m) && (m.task.SaveStartFailed? || m.task.SaveRestoring? || m.task.SaveAndRest?)
    ensures SoundSession(Step(m, o))
  {
  }

  lemma LastSaveKept(m: Machine, o: Outcome)
    requires SoundSession(m) && (m.task.SaveUndoErrors? || m.task.SaveStopped?)
    ensures SoundSession(Step(m, o))
  {
  }

  lemma SaveResumedKept(m: Machine, o: Outcome)
    requires SoundSession(m) && m.task.SaveResumed?
    ensures SoundSession(Step(m, o))
  {
    var saved := m.(file := Saved(m, o));
    var final, reason := CheckSessionOutcome(saved, m.task.snap);
  }

  lemma StepKept(m: Machine, o: Outcome)
    requires SoundSession(m)
    ensures SoundSession(Step(m, o))
  {
    match m.task
    case Down | Rest =>
    case SaveUndoRecord(_) | SaveStarted => FirstSaveKept(m, o);
    case ApplyWrite(_, _) => ApplyKept(m, o);
    case SaveResumed(_) => SaveResumedKept(m, o);
    case SaveStartFailed | SaveRestoring(_, _) | SaveAndRest => RestoringSaveKept(m, o);
    case UndoWrite(_, _, _, _) => UndoWriteKept(m, o);
    case SaveUndoErrors(_) | SaveStopped(_) => LastSaveKept(m, o);
  }

  lemma SessionKept(m: Machine, e: Event)
    requires SoundSession(m)
    ensures SoundSession(Next(m, e))
  {
    match e
    case Invoke(Start(settings, snap, readable, now)) =>
      if m.task == Rest { BeginStartKept(m, settings, snap, readable, now); }
    case Invoke(Evaluate(snap, now)) =>
      if m.task == Rest { BeginEvaluateKept(m, snap, now); }
    case Invoke(Cancel) =>
    case Io(o) => StepKept(m, o);
    case Crash =>
    case Boot(_) =>
    case Outside(_) =>
  }

  lemma StepRatchetKept(m: Machine, o: Outcome)
    requires SoundSession(m) && Ratcheted(m)
    ensures Ratcheted(Step(m, o))
  {
    if m.task.SaveResumed? {
      var saved := m.(file := Saved(m, o));
      var final, reason := CheckSessionOutcome(saved, m.task.snap);
    }
  }

  lemma RatchetKept(m: Machine, e: Event)
    requires SoundSession(m) && Ratcheted(m)
    ensures Ratcheted(Next(m, e))
  {
    if e.Io? {
      StepRatchetKept(m, e.outcome);
    }
  }

  /** Every managed word has its turn in a restore. */
  lemma UndoIndexCovers(p: Previous, i: Index) returns (k: Index)
    ensures UndoIndex(p, k) == i
  {
    k := if i == MAINS then 7 else if i == CUTOFF then 8
         else if |p.schedule| == 7 && p.schedule[6] == 0 then (if i == ENABLE then 0 else i - 1)
         else i - 2;
  }

  lemma UndoWriteProgress(m: Machine, o: Outcome)
    requires SoundSession(m) && UndoProgress(m) && m.task.UndoWrite?
    ensures UndoProgress(Step(m, o))
  {
    var n := Step(m, o);
    if n.task.SaveStopped? {
      forall i: Index ensures Undone(n, i) {
        var k := UndoIndexCovers(m.captured, i);
      }
    }
  }

  lemma UndoKept(m: Machine, e: Event)
    requires SoundSession(m) && UndoProgress(m)
    ensures UndoProgress(Next(m, e))
  {
    if e.Io? && m.task.UndoWrite? {
      UndoWriteProgress(m, e.outcome);
    } else {
      assert Next(m, e).task.UndoWrite? ==> Next(m, e).task.k == 0 || Next(m, e) == m;
    }
  }

  lemma ApplyStepShape(m: Machine, o: Outcome)
    requires m.task.ApplyWrite?
    ensures var n := Step(m, o);
            var word := StormWord(m.runtime.settings, m.task.k);
            && n.file == m.file && n.captured == m.captured
            && n.device == Written(m.device, m.task.k, word, o)
            && (n.task.ApplyWrite? ==> n.task.k == m.task.k + 1 && WriteSucceeds(word, o))
  {
  }

  /** Writing the next storm word never enables anything but the storm schedule. */
  lemma StormWriteSafe(device: Image, k: Index, word: Option<Word>, o: Outcome)
    requires k >= SCHEDULE ==> word == Some(STORM_SCHEDULE[k - SCHEDULE]) && StormSlots(device, k - SCHEDULE)
    ensures var after := Written(device, k, word, o);
            && (SCHEDULE <= k + 1 < 9 && WriteSucceeds(word, o) ==> StormSlots(after, k + 1 - SCHEDULE))
            && (EnabledOnlyForStorm(device) ==> EnabledOnlyForStorm(after))
  {
  }

  lemma ApplyEnableKept(m: Machine, o: Outcome)
    requires EnableSafe(m) && m.task.ApplyWrite?
    ensures EnableSafe(Step(m, o))
  {
    ApplyStepShape(m, o);
    StormWriteSafe(m.device, m.task.k, StormWord(m.runtime.settings, m.task.k), o);
  }

  lemma UndoStepShape(m: Machine, o: Outcome)
    requires m.task.UndoWrite?
    ensures var n := Step(m, o);
            var i := UndoIndex(m.runtime.previous, m.task.k);
            && n.file == m.file && n.captured == m.captured && !n.task.ApplyWrite?
            && n.device == Written(m.device, i, UndoWord(m.runtime.previous, i), o)
  {
  }

  /** Undoing a session that found charging disabled disables it first, and until then touches no slot. */
  lemma UndoWriteSafe(device: Image, p: Previous, k: Index, o: Outcome)
    requires |p.schedule| == 7 && p.schedule[6] == 0 && EnabledOnlyForStorm(device)
    requires 0 < k < 7 ==> device[ENABLE] == 0
    ensures var i := UndoIndex(p, k); EnabledOnlyForStorm(Written(device, i, UndoWord(p, i), o))
  {
    if k == 0 {
      assert UndoIndex(p, k) == ENABLE && UndoWord(p, ENABLE) == Some(0);
    } else if k < 7 {
      assert UndoIndex(p, k) == k + 1;
    }
  }

  lemma UndoEnableKept(m: Machine, o: Outcome)
    requires InSession(m, m.runtime) && UndoProgress(m) && EnableSafe(m) && m.task.UndoWrite?
    ensures EnableSafe(Step(m, o))
  {
    UndoStepShape(m, o);
    if m.captured.schedule[6] == 0 {
      if 0 < m.task.k < 7 {
        assert Undone(m, UndoIndex(m.captured, 0));
      }
      UndoWriteSafe(m.device, m.captured, m.task.k, o);
    }
  }

  lemma CaptureEnableSafe(m: Machine, o: Outcome)
    requires SoundSession(m) && EnableSafe(m) && m.task.SaveUndoRecord?
    ensures EnableSafe(Step(m, o))
  {
    assert m.runtime.previous.schedule[6] == m.device[ENABLE];
  }

  /** What an I/O action may touch: a save the file, a write the inverter, and the first save the capture. */
  lemma StepTouches(m: Machine, o: Outcome)
    requires !m.task.SaveUndoRecord?
    ensures var n := Step(m, o);
            !m.task.ApplyWrite? && !m.task.UndoWrite? ==> n.device == m.device && !n.task.ApplyWrite?
    ensures var n := Step(m, o);
            n.captured == m.captured && n.origin == m.origin && n.session == m.session
  {
    if m.task.SaveResumed? {
      CheckSessionTouches(m.(file := Saved(m, o)), m.task.snap);
    }
  }

  lemma CheckSessionTouches(m: Machine, snap: Snapshot)
    ensures var n := CheckSession(m, snap);
            && n.device == m.device && n.file == m.file && !n.task.ApplyWrite?
            && n.captured == m.captured && n.origin == m.origin && n.session == m.session
  {
  }

  lemma FileBecomesMemory(m: Machine, o: Outcome)
    ensures Step(m, o).file == m.file || Step(m, o).file == Some(m.runtime)
  {
    if m.task.SaveResumed? {
      CheckSessionTouches(m.(file := Saved(m, o)), m.task.snap);
    }
  }

  /** The session of `n` is the session of `m`: same capture, start and settings; and it has not come back to life. */
  predicate SessionSame(m: Machine, n: Machine) {
    && n.captured == m.captured && n.origin == m.origin
    && (FileActive(n) ==>
          && FileActive(m)
          && n.file.value.startedAt == m.file.value.startedAt
          && n.file.value.settings == m.file.value.settings)
  }

  lemma FileStaysInSession(m: Machine, n: Machine)
    requires SoundSession(m) && !m.task.SaveUndoRecord?
    requires n.file == m.file || n.file == Some(m.runtime)
    requires n.captured == m.captured && n.origin == m.origin
    ensures SessionSame(m, n)
  {
  }

  lemma EnableKept(m: Machine, e: Event)
    requires SoundSession(m) && UndoProgress(m) && EnableSafe(m)
    ensures EnableSafe(Next(m, e))
  {
    if e.Io? {
      if m.task.ApplyWrite? {
        ApplyEnableKept(m, e.outcome);
      } else if m.task.UndoWrite? {
        UndoEnableKept(m, e.outcome);
      } else if m.task.SaveUndoRecord? {
        CaptureEnableSafe(m, e.outcome);
      } else {
        StepTouches(m, e.outcome);
        FileBecomesMemory(m, e.outcome);
        FileStaysInSession(m, Step(m, e.outcome));
      }
    }
  }

  lemma InvKept(m: Machine, e: Event)
    requires Inv(m)
    ensures Inv(Next(m, e))
  {
    SessionKept(m, e);
    RatchetKept(m, e);
    UndoKept(m, e);
    EnableKept(m, e);
  }
}
