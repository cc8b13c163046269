/** What the manager's resumption flag says about the past, and sessions that show this and other limits. */
module StormHistory {
  import opened Common
  import opened Registers
  import opened StormCharge
  import opened StormInvariant
  import opened StormTheorems
  import opened StormRecovery
  import opened StormSessions

  // ----- the flag, one event at a time -----

  /** A process comes up. */
  predicate Boots(m: Machine, e: Event) {
    e.Boot? && e.readable && m.task == Down && Loadable(m.file)
  }

  /** The last storm write of a resumption succeeds. */
  predicate Resumes(m: Machine, e: Event) {
    e == Io(Done) && m.task.ApplyWrite? && m.task.k == 8 && m.task.how.Resumed?
  }

  lemma FlagIo(m: Machine, o: Outcome)
    ensures Step(m, o).resumePending == (m.resumePending && !Resumes(m, Io(o)))
  {
    if m.task.SaveResumed? {
      CheckSessionTouches(m.(file := Saved(m, o)), m.task.snap);
    }
  }

  lemma FlagStep(m: Machine, e: Event)
    ensures Next(m, e).resumePending ==
              if e == Crash || Resumes(m, e) then false
              else if Boots(m, e) then FileActive(m)
              else m.resumePending
  {
    match e
    case Invoke(call) => BeginKeepsCapture(m, call);
    case Io(o) => FlagIo(m, o);
    case _ =>
  }

  // ----- the flag over runs -----

  /** At event k of the run a process came up with a session in the file. */
  predicate LoadsSession(m: Machine, es: seq<Event>, k: nat)
    requires k < |es|
  {
    Boots(Run(m, es[..k]), es[k]) && FileActive(Run(m, es[..k]))
  }

  /** At event k of the run the process died or completed a resumption. */
  predicate EndsWait(m: Machine, es: seq<Event>, k: nat)
    requires k < |es|
  {
    es[k] == Crash || Resumes(Run(m, es[..k]), es[k])
  }

  predicate LoadedAt(m: Machine, es: seq<Event>, k: nat) {
    k < |es| && LoadsSession(m, es, k) && forall j :: k < j < |es| ==> !EndsWait(m, es, j)
  }

  /** Since the process came up with a session in the file, no resumption has been completed. */
  predicate AwaitsResumption(m: Machine, es: seq<Event>) {
    exists k :: 0 <= k < |es| && LoadedAt(m, es, k)
  }

  lemma SamePrefix(es: seq<Event>, e: Event, k: nat)
    requires k <= |es|
    ensures (es + [e])[..k] == es[..k]
  {
  }

  lemma RunOneMore(m: Machine, es: seq<Event>, e: Event)
    ensures Run(m, es + [e]) == Next(Run(m, es), e)
  {
    RunAppend(m, es, [e]);
    assert Run(Run(m, es), [e]) == Run(Next(Run(m, es), e), []);
  }

  lemma LoadedStill(m: Machine, es: seq<Event>, e: Event, k: nat)
    requires k < |es|
    ensures LoadedAt(m, es + [e], k) <==> LoadedAt(m, es, k) && e != Crash && !Resumes(Run(m, es), e)
  {
    var all := es + [e];
    SamePrefix(es, e, k);
    SamePrefix(es, e, |es|);
    assert EndsWait(m, all, |es|) <==> e == Crash || Resumes(Run(m, es), e);
    forall j | k < j < |es| ensures EndsWait(m, all, j) == EndsWait(m, es, j) {
      SamePrefix(es, e, j);
    }
  }

  lemma AwaitsOneMore(m: Machine, es: seq<Event>, e: Event)
    ensures AwaitsResumption(m, es + [e])
            <==> (Boots(Run(m, es), e) && FileActive(Run(m, es)))
                 || (AwaitsResumption(m, es) && e != Crash && !Resumes(Run(m, es), e))
  {
    var all := es + [e];
    SamePrefix(es, e, |es|);
    assert LoadedAt(m, all, |es|) <==> Boots(Run(m, es), e) && FileActive(Run(m, es));
    forall k | 0 <= k < |es|
      ensures LoadedAt(m, all, k) <==> LoadedAt(m, es, k) && e != Crash && !Resumes(Run(m, es), e)
    {
      LoadedStill(m, es, e, k);
    }
    if AwaitsResumption(m, all) {
      var k :| 0 <= k < |all| && LoadedAt(m, all, k);
    }
    if AwaitsResumption(m, es) && e != Crash && !Resumes(Run(m, es), e) {
      var k :| 0 <= k < |es| && LoadedAt(m, es, k);
      assert LoadedAt(m, all, k);
    }
  }

  /** While a process runs, its flag says exactly that it came up with a session in the file and has not completed a
      resumption since.  The session in question may be long over. */
  lemma {:induction false} FlagIsHistory(m: Machine, es: seq<Event>)
    requires Initial(m)
    ensures if Run(m, es).task == Down then !AwaitsResumption(m, es)
            else Run(m, es).resumePending <==> AwaitsResumption(m, es)
    decreases |es|
  {
    if es != [] {
      var n := |es| - 1;
      var init, e := es[..n], es[n];
      assert init + [e] == es;
      FlagIsHistory(m, init);
      RunOneMore(m, init, e);
      AwaitsOneMore(m, init, e);
      FlagStep(Run(m, init), e);
      DownAfter(Run(m, init), e);
    }
  }

  lemma DownAfter(m: Machine, e: Event)
    ensures Next(m, e).task == Down <==> e == Crash || (m.task == Down && !Boots(m, e))
    ensures m.task == Down ==> !Resumes(m, e)
  {
    match e
    case Invoke(call) =>
    case Io(o) => UpAfterIo(m, o);
    case _ =>
  }

  lemma UpAfterIo(m: Machine, o: Outcome)
    ensures Step(m, o).task == Down <==> m.task == Down
  {
    if m.task.SaveResumed? {
      var final, reason := CheckSessionOutcome(m.(file := Saved(m, o)), m.task.snap);
    }
  }

  /** Losing Modbus moves a charging session to restoring exactly when, since the process came up, there was no session
      in the file then or a resumption has been completed. */
  lemma ModbusLossByHistory(m: Machine, es: seq<Event>, snap: Snapshot, now: int)
    requires Initial(m)
    requires var n := Run(m, es); n.task == Rest && n.runtime.active && n.runtime.phase in {Starting, Charging}
    requires !snap.connected
    ensures var n := Run(m, es);
            var n' := Run(m, es + [Invoke(Evaluate(snap, now))]);
            && (n'.runtime.phase == Restoring <==> !AwaitsResumption(m, es))
            && (AwaitsResumption(m, es) ==> n' == n)
  {
    FlagIsHistory(m, es);
    ModbusLoss(m, es, snap, now);
    RunAppend(m, es, [Invoke(Evaluate(snap, now))]);
  }

  // ----- sessions that can occur -----

  const USUAL := Settings(80, 60.0, HOUR)

  /** Telemetry of a healthy grid with a cut-off of 50 and a mains current in tenths. */
  function Healthy(tenths: Word): Snapshot {
    Snapshot(true, map[
      "battery_soc" := Reading(Some(40.0), 40),
      "battery_charge_cutoff_soc" := Reading(Some(Times(50, 1.0)), 50),
      "mains_charge_current_limit" := Reading(Some(Times(tenths, 0.1)), tenths),
      "grid_voltage_phase_a" := Reading(Some(230.0), 2300),
      "grid_voltage_phase_b" := Reading(Some(230.0), 2300),
      "grid_voltage_phase_c" := Reading(Some(230.0), 2300),
      "grid_frequency" := Reading(Some(50.0), 5000)])
  }

  function Words(tenths: Word): Image {
    [50, tenths, 0, 0, 0, 0, 0, 0, 0]
  }

  function Switched(tenths: Word): Machine {
    Machine(IDLE_RUNTIME, false, None, Words(tenths), Down, 0, NO_PREVIOUS, Words(tenths), false)
  }

  /** A process comes up, a session is started, and its undo record is saved. */
  function Began(tenths: Word, now: int): seq<Event> {
    [Boot(true)] + ([Invoke(Start(USUAL, Healthy(tenths), true, now))] + [Io(Done)])
  }

  lemma StartAccepted(m: Machine, tenths: Word, now: int)
    requires m.task == Rest && !m.runtime.active
    ensures Begin(m, Start(USUAL, Healthy(tenths), true, now)).task.SaveUndoRecord?
  {
    var snap := Healthy(tenths);
    assert Numeric(snap, "battery_soc") == Some(40.0);
    assert GridAvailable(snap);
    assert "maximum_charge_current" !in snap.telemetry by {
      assert |"maximum_charge_current"| == 22;
      assert forall id <- snap.telemetry :: |id| != 22;
    }
    assert ValidSettings(USUAL);
  }

  lemma SessionBegun(tenths: Word, now: int)
    ensures var m := Switched(tenths);
            var n := Run(m, Began(tenths, now));
            && Initial(m) && FileActive(n) && n.task.ApplyWrite? && n.session == 1
            && TelemetryAgrees(Healthy(tenths), Words(tenths)) && n.captured == Capture(Healthy(tenths), Words(tenths))
  {
    var m := Switched(tenths);
    var start := Start(USUAL, Healthy(tenths), true, now);
    var up := Next(m, Boot(true));
    var begun := Next(up, Invoke(start));
    RunFrom(m, Boot(true), [Invoke(start)] + [Io(Done)]);
    RunFrom(up, Invoke(start), [Io(Done)]);
    assert Run(begun, [Io(Done)]) == Run(Next(begun, Io(Done)), []);
    StartAccepted(up, tenths, now);
    HealthyAgrees(tenths);
    CaptureTaken(up, USUAL, Healthy(tenths), now);
  }

  lemma HealthyAgrees(tenths: Word)
    ensures TelemetryAgrees(Healthy(tenths), Words(tenths))
  {
    var snap := Healthy(tenths);
    assert snap.telemetry["battery_charge_cutoff_soc"].number == Some(Times(50, 1.0));
    assert snap.telemetry["mains_charge_current_limit"].number == Some(Times(tenths, 0.1));
  }

  /** A session that cannot be ended: with 130 A in the mains register, which telemetry reports as it is, a start is
      accepted and recorded, and from then on no continuation whatever ends the session. */
  lemma StuckSession(now: int) returns (m: Machine, es: seq<Event>)
    ensures Initial(m) && FileActive(Run(m, es)) && !Encodable(Run(m, es).captured)
    ensures var n := Run(m, es);
            forall more :: Run(n, more).session == n.session ==> FileActive(Run(n, more))
  {
    m, es := Switched(1300), Began(1300, now);
    SessionBegun(1300, now);
    CaptureIsExact(Healthy(1300), Words(1300));
    SessionCanEnd(m, es);
  }

  /** The flag of a session that is over: after a crash, a restart, a cancellation and a new start with the same
      settings and telemetry, losing Modbus leaves the new session charging. */
  lemma StaleResumeFlagOccurs(now: int, lost: Snapshot, later: int) returns (m: Machine, es: seq<Event>)
    requires !lost.connected
    ensures var n := Run(m, es);
            var end := Run(n, [Crash] + ([Boot(true)] + ([Invoke(Cancel)] + Successes(11))));
            var second := Run(end, [Invoke(Start(USUAL, Healthy(200), true, now))] + Successes(11));
            && Initial(m) && !FileActive(end)
            && second.session == n.session + 1 && second.runtime.phase == Charging && StormUpTo(second, 9)
            && second.resumePending && Run(second, [Invoke(Evaluate(lost, later))]) == second
  {
    m, es := Switched(200), Began(200, now);
    SessionBegun(200, now);
    CaptureIsExact(Healthy(200), Words(200));
    RecoveryFromAnywhere(m, es);
    var end := Run(Run(m, es), [Crash] + ([Boot(true)] + ([Invoke(Cancel)] + Successes(11))));
    StartAccepted(end, 200, now);
    assert USUAL.maxCurrentA == Times(600, 0.1);
    StormWordsAreImage(USUAL, 600);
    StaleResumeFlag(m, es, USUAL, Healthy(200), now, lost, later);
  }
}
