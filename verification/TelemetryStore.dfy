/** The telemetry store and the switch events that it derives while values come in. */
module TelemetryStore {
  import opened Common

  /** A value as the store sees it: its id, the text shown, the number it stands for, if any, and when it was read,
      with 0 for never. */
  datatype Entry = Entry(id: string, rendered: string, number: Option<real>, updatedAt: nat)

  type Batch = seq<Entry>

  datatype SwitchEvent = SwitchEvent(at: nat, soc: real, updatedAt: nat)

  const MACHINE_STATE := "machine_state"
  const BATTERY_SOC := "battery_soc"
  const ON_GRID := "AC Power Operation"
  const ON_BATTERY := "Inverter Operation"
  const NEVER := SwitchEvent(0, 0.0, 0)
  const MISSING := Entry("", "", None, 0)

  datatype State = State(values: map<string, Entry>, grid: SwitchEvent, batt: SwitchEvent)
  {
    /** Looking up what is not there gives an empty entry. */
    function Value(id: string): Entry {
      if id in values then values[id] else MISSING
    }

    function LastSwitch(name: string): SwitchEvent {
      if name == ON_GRID then grid else batt
    }
  }

  const EMPTY := State(map[], NEVER, NEVER)

  // ----- one batch -----

  function Merged(values: map<string, Entry>, batch: Batch): map<string, Entry>
    decreases |batch|
  {
    if batch == [] then values
    else Merged(values, batch[..|batch| - 1])[batch[|batch| - 1].id := batch[|batch| - 1]]
  }

  /** The first entry with an id in a batch. */
  function FirstOf(batch: Batch, id: string): Option<Entry>
    decreases |batch|
  {
    if batch == [] then None else if batch[0].id == id then Some(batch[0]) else FirstOf(batch[1..], id)
  }

  /** The last entry with an id in a batch. */
  function LastOf(batch: Batch, id: string): Option<Entry>
    decreases |batch|
  {
    if batch == [] then None
    else if batch[|batch| - 1].id == id then Some(batch[|batch| - 1])
    else LastOf(batch[..|batch| - 1], id)
  }

  function NumberOr0(e: Entry): real {
    match e.number case Some(n) => n case None => 0.0
  }

  function Newest(a: nat, b: nat): nat {
    if a >= b then a else b
  }

  /** The charge that goes into an event: the batch's first entry for it, if that is a number, else what is stored. */
  function EventSoc(values: map<string, Entry>, batch: Batch): real {
    match FirstOf(batch, BATTERY_SOC)
    case Some(e) => if e.number.Some? then e.number.value else NumberOr0(Lookup(values, BATTERY_SOC))
    case None => NumberOr0(Lookup(values, BATTERY_SOC))
  }

  function Lookup(values: map<string, Entry>, id: string): Entry {
    State(values, NEVER, NEVER).Value(id)
  }

  function EventIn(values: map<string, Entry>, batch: Batch): SwitchEvent {
    var at := Lookup(values, MACHINE_STATE).updatedAt;
    SwitchEvent(at, EventSoc(values, batch), Newest(at, Lookup(values, BATTERY_SOC).updatedAt))
  }

  predicate Switches(before: string, after: string) {
    before != "" && after != "" && before != after
  }

  function Upserted(s: State, batch: Batch): State {
    var values := Merged(s.values, batch);
    var before, after := s.Value(MACHINE_STATE).rendered, Lookup(values, MACHINE_STATE).rendered;
    var event := EventIn(values, batch);
    State(values,
          if Switches(before, after) && after == ON_GRID then event else s.grid,
          if Switches(before, after) && after == ON_BATTERY then event else s.batt)
  }

  class Store {
    var values: map<string, Entry>
    var lastSwitchGrid: SwitchEvent
    var lastSwitchBatt: SwitchEvent

    ghost function Contents(): State
      reads this
    {
      State(values, lastSwitchGrid, lastSwitchBatt)
    }

    constructor ()
      ensures Contents() == EMPTY
      ensures values == map[] && lastSwitchGrid == lastSwitchBatt == SwitchEvent(0, 0.0, 0)
    {
      values := map[];
      lastSwitchGrid := NEVER;
      lastSwitchBatt := NEVER;
    }

    method UpsertTelemetry(batch: Batch)
      modifies this
      ensures Contents() == Upserted(old(Contents()), batch)
    {
      ghost var start := values;
      var previous := Lookup(values, MACHINE_STATE).rendered;
      for i := 0 to |batch|
        invariant values == Merged(start, batch[..i])
        invariant lastSwitchGrid == old(lastSwitchGrid) && lastSwitchBatt == old(lastSwitchBatt)
      {
        values := values[batch[i].id := batch[i]];
        assert batch[..i + 1][..i] == batch[..i];
      }
      assert batch[..|batch|] == batch;

      var current := Lookup(values, MACHINE_STATE).rendered;
      if previous == "" || current == "" || current == previous {
        return;
      }
      var event := SwitchEventFor(batch);
      if current == ON_GRID {
        lastSwitchGrid := event;
      } else if current == ON_BATTERY {
        lastSwitchBatt := event;
      }
    }

    method SwitchEventFor(batch: Batch) returns (event: SwitchEvent)
      ensures event == EventIn(values, batch)
    {
      var machineState, stored := Lookup(values, MACHINE_STATE), Lookup(values, BATTERY_SOC);
      var soc := NumberOr0(stored);
      var i := 0;
      while i < |batch|
        invariant 0 <= i <= |batch|
        invariant FirstOf(batch, BATTERY_SOC) == FirstOf(batch[i..], BATTERY_SOC)
        invariant soc == NumberOr0(stored)
      {
        assert batch[i..][1..] == batch[i + 1..];
        if batch[i].id != BATTERY_SOC {
          i := i + 1;
          continue;
        }
        if batch[i].number.Some? {
          soc := batch[i].number.value;
        }
        break;
      }
      event := SwitchEvent(machineState.updatedAt, soc, Newest(machineState.updatedAt, stored.updatedAt));
    }
  }

  // ----- the history -----

  function Replay(history: seq<Batch>): State
    decreases |history|
  {
    if history == [] then EMPTY else Upserted(Replay(history[..|history| - 1]), history[|history| - 1])
  }

  /** The entry in force after a history: the last one with that id, in the last batch that has one. */
  function InForce(history: seq<Batch>, id: string): Entry
    decreases |history|
  {
    if history == [] then MISSING
    else
      match LastOf(history[|history| - 1], id)
      case Some(e) => e
      case None => InForce(history[..|history| - 1], id)
  }

  lemma {:induction false} MergedValue(values: map<string, Entry>, batch: Batch, id: string)
    ensures Lookup(Merged(values, batch), id)
         == match LastOf(batch, id) case Some(e) => e case None => Lookup(values, id)
    decreases |batch|
  {
    if batch != [] {
      MergedValue(values, batch[..|batch| - 1], id);
    }
  }

  /** The store holds what is in force. */
  lemma {:induction false} StoreIsInForce(history: seq<Batch>, id: string)
    ensures Replay(history).Value(id) == InForce(history, id)
    decreases |history|
  {
    if history != [] {
      var before := history[..|history| - 1];
      StoreIsInForce(before, id);
      MergedValue(Replay(before).values, history[|history| - 1], id);
    }
  }

  /** Batch k (counted from 1) moved the machine from another, known state into the named one. */
  predicate Moved(history: seq<Batch>, k: nat, name: string) {
    && 1 <= k <= |history|
    && InForce(history[..k], MACHINE_STATE).rendered == name
    && Switches(InForce(history[..k - 1], MACHINE_STATE).rendered, name)
  }

  /** Nothing in a history after its first k batches moved into the named state. */
  predicate NoneAfter(history: seq<Batch>, k: nat, name: string) {
    forall j :: k < j <= |history| ==> !Moved(history, j, name)
  }

  /** The time and the charge in force once batch k is in. */
  function EventAt(history: seq<Batch>, k: nat): SwitchEvent
    requires k <= |history|
  {
    var machine, soc := InForce(history[..k], MACHINE_STATE), InForce(history[..k], BATTERY_SOC);
    SwitchEvent(machine.updatedAt, NumberOr0(soc), Newest(machine.updatedAt, soc.updatedAt))
  }

  /** A batch whose first number for the charge is also its last entry for it. */
  predicate OneCharge(batch: Batch) {
    var first, last := FirstOf(batch, BATTERY_SOC), LastOf(batch, BATTERY_SOC);
    first.Some? && first.value.number.Some? ==> last.Some? && first.value.number.value == NumberOr0(last.value)
  }

  /** Whatever came before, an event's charge is the one in force exactly when the batch does not contradict itself. */
  lemma SocInForceIff(history: seq<Batch>, batch: Batch)
    ensures EventSoc(Replay(history + [batch]).values, batch) == NumberOr0(InForce(history + [batch], BATTERY_SOC))
            <==> OneCharge(batch)
  {
    var all := history + [batch];
    StoreIsInForce(all, BATTERY_SOC);
    FirstMeansLast(batch, BATTERY_SOC);
  }

  lemma {:induction false} FirstMeansLast(batch: Batch, id: string)
    ensures FirstOf(batch, id).Some? <==> LastOf(batch, id).Some?
  {
    FirstIsThere(batch, id);
    if FirstOf(batch, id).Some? {
      var i :| 0 <= i < |batch| && batch[i].id == id && FirstOf(batch, id) == Some(batch[i]);
      HasLast(batch, i);
    } else if LastOf(batch, id).Some? {
      var i := LastWhere(batch, id);
    }
  }

  lemma {:induction false} HasLast(batch: Batch, i: nat)
    requires i < |batch|
    ensures LastOf(batch, batch[i].id).Some?
    decreases |batch|
  {
    if batch[|batch| - 1].id != batch[i].id {
      HasLast(batch[..|batch| - 1], i);
    }
  }

  lemma {:induction false} LastWhere(batch: Batch, id: string) returns (i: nat)
    requires LastOf(batch, id).Some?
    ensures i < |batch| && batch[i].id == id
    decreases |batch|
  {
    i := |batch| - 1;
    if batch[i].id != id {
      i := LastWhere(batch[..|batch| - 1], id);
    }
  }

  predicate DistinctIds(batch: Batch) {
    forall i, j :: 0 <= i < j < |batch| ==> batch[i].id != batch[j].id
  }

  lemma {:induction false} FirstIsThere(batch: Batch, id: string)
    ensures FirstOf(batch, id).Some? ==>
              exists i :: 0 <= i < |batch| && batch[i].id == id && FirstOf(batch, id) == Some(batch[i])
    ensures FirstOf(batch, id).None? ==> forall i :: 0 <= i < |batch| ==> batch[i].id != id
    decreases |batch|
  {
    if batch != [] && batch[0].id != id {
      FirstIsThere(batch[1..], id);
      if FirstOf(batch, id).Some? {
        var i :| 0 <= i < |batch[1..]| && batch[1..][i].id == id && FirstOf(batch, id) == Some(batch[1..][i]);
        assert batch[i + 1] == batch[1..][i];
      } else {
        assert forall i :: 1 <= i < |batch| ==> batch[i] == batch[1..][i - 1];
      }
    }
  }

  lemma {:induction false} LastIsThere(batch: Batch, i: nat)
    requires i < |batch| && forall j :: i < j < |batch| ==> batch[j].id != batch[i].id
    ensures LastOf(batch, batch[i].id) == Some(batch[i])
    decreases |batch|
  {
    if i < |batch| - 1 {
      LastIsThere(batch[..|batch| - 1], i);
    }
  }

  lemma DistinctSoc(history: seq<Batch>, batch: Batch)
    requires DistinctIds(batch)
    ensures EventSoc(Replay(history + [batch]).values, batch) == NumberOr0(InForce(history + [batch], BATTERY_SOC))
  {
    SocInForceIff(history, batch);
    FirstIsThere(batch, BATTERY_SOC);
    if FirstOf(batch, BATTERY_SOC).Some? {
      var i :| 0 <= i < |batch| && batch[i].id == BATTERY_SOC && FirstOf(batch, BATTERY_SOC) == Some(batch[i]);
      LastIsThere(batch, i);
    }
  }

  lemma EventIsInForce(history: seq<Batch>, batch: Batch)
    requires DistinctIds(batch)
    ensures EventIn(Replay(history + [batch]).values, batch) == EventAt(history + [batch], |history| + 1)
  {
    var all := history + [batch];
    assert all[..|all|] == all;
    StoreIsInForce(all, MACHINE_STATE);
    StoreIsInForce(all, BATTERY_SOC);
    DistinctSoc(history, batch);
  }

  /** The last batch decides: it made the switch, or the history before it did. */
  lemma LastBatch(history: seq<Batch>, batch: Batch, name: string)
    requires DistinctIds(batch) && (name == ON_GRID || name == ON_BATTERY)
    ensures var all := history + [batch];
            Replay(all).LastSwitch(name) ==
              if Moved(all, |all|, name) then EventAt(all, |all|) else Replay(history).LastSwitch(name)
  {
    var all := history + [batch];
    assert all[..|all|] == all && all[..|all| - 1] == history;
    StoreIsInForce(history, MACHINE_STATE);
    StoreIsInForce(all, MACHINE_STATE);
    EventIsInForce(history, batch);
    assert Replay(all) == Upserted(Replay(history), batch);
  }

  lemma MovedEarlier(history: seq<Batch>, j: nat, name: string)
    requires 1 <= j < |history|
    ensures Moved(history, j, name) == Moved(history[..|history| - 1], j, name)
  {
    var before := history[..|history| - 1];
    assert before[..j] == history[..j] && before[..j - 1] == history[..j - 1];
  }

  predicate AllDistinct(history: seq<Batch>) {
    forall i :: 0 <= i < |history| ==> DistinctIds(history[i])
  }

  /** The stored switch into a state is that of the most recent batch that made one, with the time and the charge then
      in force; none is stored if no batch did. */
  lemma {:induction false} LastSwitchIsMostRecent(history: seq<Batch>, k: nat, name: string)
    requires AllDistinct(history) && (name == ON_GRID || name == ON_BATTERY)
    requires k <= |history| && NoneAfter(history, k, name)
    requires k == 0 || Moved(history, k, name)
    ensures Replay(history).LastSwitch(name) == if k == 0 then SwitchEvent(0, 0.0, 0) else EventAt(history, k)
    decreases |history|
  {
    if history != [] {
      var before := history[..|history| - 1];
      assert before + [history[|history| - 1]] == history;
      LastBatch(before, history[|history| - 1], name);
      if k < |history| {
        forall j | k < j <= |before| ensures !Moved(before, j, name) {
          MovedEarlier(history, j, name);
        }
        if k > 0 {
          MovedEarlier(history, k, name);
          assert before[..k] == history[..k];
        }
        LastSwitchIsMostRecent(before, k, name);
      }
    }
  }

  // ----- one switch, spelled out -----

  /** Entry i is the first with the id; i is the length of the batch if there is none. */
  predicate IsFirst(batch: Batch, id: string, i: nat) {
    && i <= |batch| && (i < |batch| ==> batch[i].id == id)
    && forall j :: 0 <= j < i ==> batch[j].id != id
  }

  /** Entry i is the last with the id; i is -1 if there is none. */
  predicate IsLast(batch: Batch, id: string, i: int) {
    && -1 <= i < |batch| && (i >= 0 ==> batch[i].id == id)
    && forall j :: i < j < |batch| && 0 <= j ==> batch[j].id != id
  }

  lemma {:induction false} FirstFound(batch: Batch, id: string, i: nat)
    requires IsFirst(batch, id, i)
    ensures FirstOf(batch, id) == if i < |batch| then Some(batch[i]) else None
    decreases |batch|
  {
    if batch != [] && i > 0 {
      assert forall j :: 0 <= j < i - 1 ==> batch[1..][j] == batch[j + 1];
      FirstFound(batch[1..], id, i - 1);
    }
  }

  lemma {:induction false} LastFound(batch: Batch, id: string, i: int)
    requires IsLast(batch, id, i)
    ensures LastOf(batch, id) == if i >= 0 then Some(batch[i]) else None
  {
    if i >= 0 {
      LastIsThere(batch, i);
    } else if LastOf(batch, id).Some? {
      var k := LastWhere(batch, id);
    }
  }

  /** The entry that is stored for an id after a batch: the batch's last one or else the one stored before. */
  lemma StoredAfter(s: State, batch: Batch, id: string, i: int)
    requires IsLast(batch, id, i)
    ensures Lookup(Upserted(s, batch).values, id) ==
              if i >= 0 then batch[i] else if id in s.values then s.values[id] else Entry("", "", None, 0)
  {
    LastFound(batch, id, i);
    MergedValue(s.values, batch, id);
  }

  /** What one batch makes of the two events.  A machine state that was known and is now another one, likewise known,
      sets the event of the grid if it reads "AC Power Operation", that of the battery if it reads "Inverter
      Operation", and keeps the other; in all other cases both stay.  The event has the time of the state, the charge
      of the batch's first entry for it, if a number, or else of the stored entry, with 0 for what is not a number,
      and the later of the times of the state and of the stored charge. */
  lemma SwitchRecorded(s: State, batch: Batch, state: int, first: nat, last: int)
    requires IsLast(batch, "machine_state", state)
    requires IsFirst(batch, "battery_soc", first) && IsLast(batch, "battery_soc", last)
    ensures var t := Upserted(s, batch);
            var before := if "machine_state" in s.values then s.values["machine_state"].rendered else "";
            var after := if state >= 0 then batch[state].rendered else before;
            var changed := before != "" && after != "" && after != before;
            var at := if state >= 0 then batch[state].updatedAt else 0;
            var charge := if last >= 0 then batch[last]
                          else if "battery_soc" in s.values then s.values["battery_soc"]
                          else Entry("", "", None, 0);
            var soc := if first < |batch| && batch[first].number.Some? then batch[first].number.value
                       else if charge.number.Some? then charge.number.value else 0.0;
            var event := SwitchEvent(at, soc, if charge.updatedAt > at then charge.updatedAt else at);
            && t.grid == (if changed && after == "AC Power Operation" then event else s.grid)
            && t.batt == (if changed && after == "Inverter Operation" then event else s.batt)
  {
    StoredAfter(s, batch, "machine_state", state);
    StoredAfter(s, batch, "battery_soc", last);
    FirstFound(batch, "battery_soc", first);
  }

  /** A batch that contradicts itself, for comparison: its event carries a charge that was never in force. */
  lemma DuplicateSocDiffers() returns (history: seq<Batch>, batch: Batch)
    ensures Moved(history + [batch], |history| + 1, ON_GRID)
    ensures Replay(history + [batch]).grid.soc != NumberOr0(InForce(history + [batch], BATTERY_SOC))
  {
    var was := Entry(MACHINE_STATE, ON_BATTERY, None, 1);
    var now := Entry(MACHINE_STATE, ON_GRID, None, 2);
    var early, late := Entry(BATTERY_SOC, "40", Some(40.0), 2), Entry(BATTERY_SOC, "41", Some(41.0), 2);
    history, batch := [[was]], [now, early, late];
    var all := history + [batch];
    assert all[..1] == history && all[..2] == all;
    assert batch[..2] == [now, early] && batch[..2][..1] == [now] && batch[1..] == [early, late];
    assert history[..0] == [] && [was][..0] == [];
    StoreIsInForce(history, MACHINE_STATE);
    StoreIsInForce(all, MACHINE_STATE);
    StoreIsInForce(all, BATTERY_SOC);
    assert LastOf(batch, BATTERY_SOC) == Some(late);
    assert |MACHINE_STATE| != |BATTERY_SOC|;
    LastIsThere(batch, 0);
    assert FirstOf(batch, BATTERY_SOC) == Some(early);
    SocInForceIff(history, batch);
  }
}
