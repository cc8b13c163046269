/** Whole sessions: from an honest capture to the exact words back on the inverter, and one flag that outlives its
    session. */
module StormSessions {
  import opened Common
  import opened Registers
  import opened StormCharge
  import opened StormInvariant
  import opened StormTheorems
  import opened StormRecovery

  /** A session that began with telemetry agreeing with the inverter and both settings within their write bounds can
      always be undone exactly: after anything at all has happened to it, a crash, a restart and a cancellation leave
      the inverter with the very nine words it had before the session began. */
  lemma SessionUndoneExactly(m: Machine, before: seq<Event>, settings: Settings, snap: Snapshot, now: int,
                             during: seq<Event>)
    requires Initial(m)
    requires var s := Run(m, before);
             && s.task == Rest && Begin(s, Start(settings, snap, true, now)).task.SaveUndoRecord?
             && TelemetryAgrees(snap, s.device) && s.device[CUTOFF] <= 100 && s.device[MAINS] <= 1200
    requires var s := Run(m, before);
             var n := Run(s, [Invoke(Start(settings, snap, true, now))] + ([Io(Done)] + during));
             n.session == s.session + 1 && FileActive(n)
    ensures var s := Run(m, before);
            var n := Run(s, [Invoke(Start(settings, snap, true, now))] + ([Io(Done)] + during));
            var end := Run(n, [Crash] + ([Boot(true)] + ([Invoke(Cancel)] + Successes(11))));
            end.device == s.device && !FileActive(end) && end.task == Rest
  {
    var start := Start(settings, snap, true, now);
    var s := Run(m, before);
    var b := Begin(s, start);
    var c := Step(b, Done);
    RunKeepsInv(m, before);
    InvKept(s, Invoke(start));
    InvKept(b, Io(Done));
    RunFrom(s, Invoke(start), [Io(Done)] + during);
    RunFrom(b, Io(Done), during);
    RunKeepsInv(c, during);
    SessionConstant(c, during);
    var n := Run(c, during);
    CaptureIsExact(snap, s.device);
    CaptureTaken(s, settings, snap, now);
    CrashBootCancel(n);
    var end := Run(n, [Crash] + ([Boot(true)] + ([Invoke(Cancel)] + Successes(11))));
    UndoneIsExact(end, Capture(snap, s.device), s.device);
  }

  lemma CaptureTaken(s: Machine, settings: Settings, snap: Snapshot, now: int)
    requires TelemetryAgrees(snap, s.device) && Begin(s, Start(settings, snap, true, now)).task.SaveUndoRecord?
    requires !s.task.SaveUndoRecord?
    ensures var c := Step(Begin(s, Start(settings, snap, true, now)), Done);
            c.captured == Capture(snap, s.device) && c.session == s.session + 1
  {
  }

  lemma UndoneIsExact(m: Machine, p: Previous, words: Image)
    requires m.captured == p && AllUndone(m)
    requires forall i: Index :: UndoWord(p, i) == Some(words[i])
    ensures m.device == words
  {
    forall i | 0 <= i < 9 ensures m.device[i] == words[i] {
      assert Undone(m, i);
    }
  }

  // ----- a flag that outlives its session -----

  predicate Appliable(s: Settings) {
    forall i: Index :: StormWord(s, i).Some?
  }

  predicate StormUpTo(m: Machine, k: nat) {
    forall i: Index :: i < k ==> StormWord(m.runtime.settings, i) == Some(m.device[i])
  }

  /** A time of day as the schedule words pack it. */
  function SlotTime(hour: nat, minute: nat): Word
    requires hour < 24 && minute < 60
  {
    hour * 0x100 + minute
  }

  /** The words a session is meant to write: target, limit in tenths, three slots from 00:01 to 23:59, enable. */
  function StormImage(target: Word, tenths: Word): Image {
    var from, to := SlotTime(0, 1), SlotTime(23, 59);
    [target, tenths, from, to, from, to, from, to, 1]
  }

  /** Those words are what it writes, and the codec accepts them all, when the limit is a whole number of tenths. */
  lemma StormWordsAreImage(s: Settings, tenths: Word)
    requires ValidSettings(s) && s.maxCurrentA == Times(tenths, 0.1)
    ensures Appliable(s)
    ensures forall i: Index :: StormWord(s, i) == Some(StormImage(s.targetSOC, tenths)[i])
  {
    TenthsInBounds(tenths);
    assert Times(s.targetSOC, 1.0) == s.targetSOC as real;
    CutoffIsExact(s.targetSOC);
    MainsIsExact(tenths);
    forall i: Index ensures StormWord(s, i) == Some(StormImage(s.targetSOC, tenths)[i]) {
      assert i >= SCHEDULE ==> STORM_SCHEDULE[i - SCHEDULE] == StormImage(s.targetSOC, tenths)[i];
    }
  }

  lemma TenthsInBounds(tenths: Word)
    requires Times(tenths, 0.1) <= 120.0
    ensures tenths <= 1200
  {
    assert tenths as real * 0.1 <= 120.0;
  }

  /** Writes that all succeed put the whole storm image on the inverter and leave the session charging. */
  lemma {:induction false} ApplyCompletes(m: Machine)
    requires m.task.ApplyWrite? && m.task.how.Fresh? && Appliable(m.runtime.settings) && StormUpTo(m, m.task.k)
    ensures var n := Run(m, Successes(10 - m.task.k));
            && n.task == Rest && n.runtime == m.runtime.(phase := Charging) && n.file == Some(n.runtime)
            && n.resumePending == m.resumePending && n.session == m.session && StormUpTo(n, 9)
    decreases 9 - m.task.k
  {
    var k: nat := m.task.k;
    var n := Step(m, Done);
    assert StormWord(m.runtime.settings, k).Some?;
    RunSuccesses(m, 10 - k);
    if k < 8 {
      ApplyCompletes(n);
    } else {
      RunSuccesses(n, 1);
    }
  }

  /** A start in which nothing fails. */
  lemma StartCompletes(m: Machine, settings: Settings, snap: Snapshot, now: int)
    requires m.task == Rest && Begin(m, Start(settings, snap, true, now)).task.SaveUndoRecord? && Appliable(settings)
    ensures var n := Run(m, [Invoke(Start(settings, snap, true, now))] + Successes(11));
            && n.task == Rest && n.runtime.active && n.runtime.phase == Charging && n.file == Some(n.runtime)
            && n.resumePending == m.resumePending && n.session == m.session + 1
            && n.runtime.settings == settings && StormUpTo(n, 9)
  {
    var start := Invoke(Start(settings, snap, true, now));
    var b := Begin(m, start.call);
    RunFrom(m, start, Successes(11));
    RunSuccesses(b, 11);
    ApplyCompletes(Step(b, Done));
  }

  /** Losing Modbus while charging moves the session to restoring exactly when no resumption is pending. */
  lemma ModbusLoss(m: Machine, es: seq<Event>, snap: Snapshot, now: int)
    requires Initial(m)
    requires var n := Run(m, es); n.task == Rest && n.runtime.active && n.runtime.phase in {Starting, Charging}
    requires !snap.connected
    ensures var n := Run(m, es);
            var n' := Run(n, [Invoke(Evaluate(snap, now))]);
            && (n'.runtime.phase == Restoring <==> !n.resumePending)
            && (n.resumePending ==> n' == n)
  {
    var n := Run(m, es);
    assert Run(n, [Invoke(Evaluate(snap, now))]) == Next(n, Invoke(Evaluate(snap, now)));
  }

  /** That flag is not always right.  Let any session crash, be loaded again and cancelled, and let another be started:
      the new session was never interrupted, yet losing Modbus leaves it charging. */
  lemma StaleResumeFlag(m: Machine, es: seq<Event>, settings: Settings, snap: Snapshot, now: int,
                        lost: Snapshot, later: int)
    requires Initial(m)
    requires FileActive(Run(m, es)) && Encodable(Run(m, es).captured)
    requires var end := Run(Run(m, es), [Crash] + ([Boot(true)] + ([Invoke(Cancel)] + Successes(11))));
             Begin(end, Start(settings, snap, true, now)).task.SaveUndoRecord?
    requires Appliable(settings) && !lost.connected
    ensures var n := Run(m, es);
            var end := Run(n, [Crash] + ([Boot(true)] + ([Invoke(Cancel)] + Successes(11))));
            var second := Run(end, [Invoke(Start(settings, snap, true, now))] + Successes(11));
            && second.session == n.session + 1 && second.runtime.phase == Charging && StormUpTo(second, 9)
            && second.resumePending && Run(second, [Invoke(Evaluate(lost, later))]) == second
  {
    RecoveryFromAnywhere(m, es);
    var end := Run(Run(m, es), [Crash] + ([Boot(true)] + ([Invoke(Cancel)] + Successes(11))));
    StartCompletes(end, settings, snap, now);
    var second := Run(end, [Invoke(Start(settings, snap, true, now))] + Successes(11));
    assert Run(second, [Invoke(Evaluate(lost, later))]) == Next(second, Invoke(Evaluate(lost, later)));
  }
}
