/** The guard on the four state-of-charge thresholds.  Each is written by itself, yet together they must keep their
    order, so that every write is checked against what is known of the other three. */
module Thresholds {
  import opened Common
  import Registers

  datatype Setting = Cutoff | Alarm | Stop | Start

  /** The four threshold registers of the device, in per cent. */
  datatype Levels = Levels(cutoff: Word, alarm: Word, stop: Word, start: Word)
  {
    function Get(id: Setting): Word {
      match id case Cutoff => cutoff case Alarm => alarm case Stop => stop case Start => start
    }

    function Set(id: Setting, value: Word): Levels {
      match id
      case Cutoff => this.(cutoff := value)
      case Alarm => this.(alarm := value)
      case Stop => this.(stop := value)
      case Start => this.(start := value)
    }
  }

  const GAP: Word := 5

  /** What the guard is for: the discharge cut-off at least five per cent below the alarm, the alarm at least five below
      the return to battery, and the switch to the grid not above it. */
  predicate Ordered(l: Levels) {
    l.cutoff + 5 <= l.alarm && l.alarm + 5 <= l.start && l.stop <= l.start
  }

  /** What the encoder lets through for these registers. */
  predicate Encodable(id: Setting, value: Word) {
    (if id == Start then 1 else 0) <= value <= 100
  }

  /** The catalog entries of the four thresholds, as far as the encoder looks at them. */
  predicate IsEntry(r: Registers.Register, id: Setting) {
    && r.enum == map[] && r.scale == 1.0
    && r.writeMin == (if id == Start then 1.0 else 0.0) && r.writeMax == 100.0
  }

  lemma RoundWithin(x: real, low: int, high: int)
    requires low as real <= x <= high as real && low >= 0
    ensures low <= Registers.Round(x) <= high
  {
  }

  lemma DivideByOne(x: real)
    ensures Registers.Ratio(x, 1.0) == x
  {
  }

  lemma EncoderKeepsBounds(r: Registers.Register, id: Setting, input: Registers.Input)
    requires IsEntry(r, id) && Registers.EncodeNumber(r, input).Ok?
    ensures Encodable(id, Registers.EncodeNumber(r, input).value)
  {
    var value := match input case Number(value) => value case Text(_, float, _) => float.value;
    assert Registers.Acceptable(r, value);
    DivideByOne(value);
    RoundWithin(value, if id == Start then 1 else 0, 100);
  }

  // ----- the guard -----

  /** The settings whose current value the guard looks up, in that order. */
  function Consulted(id: Setting): seq<Setting> {
    match id
    case Cutoff => [Alarm]
    case Alarm => [Cutoff, Start]
    case Stop => [Start]
    case Start => [Stop, Alarm]
  }

  /** Whether the guard accepts a value, given what it takes the settings to be; sums are 16 bits wide. */
  predicate Accepts(known: Levels, id: Setting, value: Word) {
    match id
    case Cutoff => Add16(value, GAP) <= known.alarm
    case Alarm => value >= Add16(known.cutoff, GAP) && Add16(value, GAP) <= known.start
    case Stop => value <= known.start
    case Start => value >= known.stop && value >= Add16(known.alarm, GAP)
  }

  /** From settings in order, the guard accepts exactly the writes that leave them in order. */
  lemma GuardIsOrder(l: Levels, id: Setting, value: Word)
    requires Ordered(l) && Encodable(id, value)
    ensures Accepts(l, id, value) <==> Ordered(l.Set(id, value))
  {
    match id {
      case Cutoff =>
      case Alarm =>
      case Stop =>
      case Start =>
    }
  }

  // ----- one write and its I/O -----

  /** What becomes of a write on the wire: done and acknowledged, refused, done without the caller learning of it, or
      acknowledged without being done. */
  datatype Fate = Applied | Refused | Lost | Ignored

  /** How the I/O of one call turns out: whether the client opens, whether settings not in the store can be read, and
      whether the reads after the write get through. */
  datatype IO = IO(opens: bool, answers: bool, fate: Fate, verifies: bool, readsBack: bool)

  type Store = map<Setting, Word>

  datatype State = State(device: Levels, store: Store)

  /** The value that the guard sees: the stored one if there is one, else the device's. */
  function Known(s: State, id: Setting): Word {
    if id in s.store then s.store[id] else s.device.Get(id)
  }

  function KnownLevels(s: State): Levels {
    Levels(Known(s, Cutoff), Known(s, Alarm), Known(s, Stop), Known(s, Start))
  }

  predicate Available(s: State, id: Setting, io: IO) {
    forall k :: 0 <= k < |Consulted(id)| ==> Consulted(id)[k] in s.store || io.answers
  }

  function DeviceAfter(device: Levels, id: Setting, value: Word, fate: Fate): Levels {
    if fate == Applied || fate == Lost then device.Set(id, value) else device
  }

  /** Whether a write that reported an error is found on the device after all. */
  predicate Recovered(after: Levels, id: Setting, value: Word, io: IO) {
    io.verifies && after.Get(id) == value
  }

  predicate Attempted(s: State, id: Setting, value: Result<Word>, io: IO) {
    io.opens && value.Ok? && Available(s, id, io) && Accepts(KnownLevels(s), id, value.value)
  }

  /** Whether the call goes on to believe that its write took place. */
  predicate Believed(device: Levels, id: Setting, value: Word, io: IO) {
    var after := DeviceAfter(device, id, value, io.fate);
    io.fate == Applied || io.fate == Ignored || Recovered(after, id, value, io)
  }

  function Write(s: State, id: Setting, value: Result<Word>, io: IO): State {
    if !Attempted(s, id, value, io) then s
    else
      var after := DeviceAfter(s.device, id, value.value, io.fate);
      State(after,
            if !Believed(s.device, id, value.value, io) then s.store
            else s.store[id := if io.readsBack then after.Get(id) else value.value])
  }

  predicate Succeeds(s: State, id: Setting, value: Result<Word>, io: IO) {
    && Attempted(s, id, value, io)
    && Believed(s.device, id, value.value, io) && io.readsBack
    && DeviceAfter(s.device, id, value.value, io.fate).Get(id) == value.value
  }

  // ----- the service -----

  class Service {
    /** The device's registers; nothing else writes them. */
    var device: Levels
    /** The last value of each setting that was read or written. */
    var store: Store

    ghost function Contents(): State
      reads this
    {
      State(device, store)
    }

    constructor (device: Levels)
      ensures Contents() == State(device, map[])
    {
      this.device := device;
      store := map[];
    }

    method CurrentRegisterRaw(id: Setting, io: IO) returns (r: Result<Word>)
      ensures r.Ok? <==> id in store || io.answers
      ensures r.Ok? ==> r.value == Known(Contents(), id)
    {
      if id in store {
        return Ok(store[id]);
      }
      if !io.answers {
        return Err;
      }
      r := Ok(device.Get(id));
    }

    method ValidateWrite(id: Setting, encoded: Word, io: IO) returns (ok: bool)
      ensures ok <==> Available(Contents(), id, io) && Accepts(KnownLevels(Contents()), id, encoded)
    {
      match id {
        case Cutoff =>
          assert Consulted(id)[0] == Alarm;
          var alarm := CurrentRegisterRaw(Alarm, io);
          ok := alarm.Ok? && !(Add16(encoded, GAP) > alarm.value);
        case Alarm =>
          assert Consulted(id)[0] == Cutoff && Consulted(id)[1] == Start;
          var cutoff := CurrentRegisterRaw(Cutoff, io);
          if cutoff.Err? || encoded < Add16(cutoff.value, GAP) {
            return false;
          }
          var start := CurrentRegisterRaw(Start, io);
          ok := start.Ok? && !(Add16(encoded, GAP) > start.value);
        case Stop =>
          assert Consulted(id)[0] == Start;
          var start := CurrentRegisterRaw(Start, io);
          ok := start.Ok? && !(encoded > start.value);
        case Start =>
          assert Consulted(id)[0] == Stop && Consulted(id)[1] == Alarm;
          var stop := CurrentRegisterRaw(Stop, io);
          if stop.Err? || encoded < stop.value {
            return false;
          }
          var alarm := CurrentRegisterRaw(Alarm, io);
          ok := alarm.Ok? && !(encoded < Add16(alarm.value, GAP));
      }
    }

    /** The device's part in a write; the result is whether the caller sees an error. */
    method WriteSingleRegister(id: Setting, encoded: Word, fate: Fate) returns (acknowledged: bool)
      modifies this`device
      ensures device == DeviceAfter(old(device), id, encoded, fate)
      ensures acknowledged <==> fate == Applied || fate == Ignored
    {
      match fate {
        case Applied => device := device.Set(id, encoded); acknowledged := true;
        case Refused => acknowledged := false;
        case Lost => device := device.Set(id, encoded); acknowledged := false;
        case Ignored => acknowledged := true;
      }
    }

    method VerifyWrite(id: Setting, expected: Word, io: IO) returns (verified: bool)
      ensures verified <==> Recovered(device, id, expected, io)
    {
      if !io.verifies {
        return false;
      }
      verified := device.Get(id) == expected;
    }

    method UpsertTelemetry(id: Setting, raw: Word)
      modifies this`store
      ensures store == old(store)[id := raw]
    {
      store := store[id := raw];
    }

    method WriteRegister(id: Setting, encoded: Result<Word>, io: IO) returns (ok: bool)
      modifies this
      ensures Contents() == Write(old(Contents()), id, encoded, io)
      ensures ok <==> Succeeds(old(Contents()), id, encoded, io)
      ensures ok ==> device == old(device).Set(id, encoded.value) && store == old(store)[id := encoded.value]
      ensures !io.opens || encoded.Err? ==> !ok && Contents() == old(Contents())
    {
      if !io.opens || encoded.Err? {
        return false;
      }
      var accepted := ValidateWrite(id, encoded.value, io);
      if !accepted {
        return false;
      }
      var acknowledged := WriteSingleRegister(id, encoded.value, io.fate);
      if !acknowledged {
        var verified := VerifyWrite(id, encoded.value, io);
        if !verified {
          return false;
        }
      }
      UpsertTelemetry(id, encoded.value);
      if !io.readsBack {
        return false;
      }
      var raw := device.Get(id);
      UpsertTelemetry(id, raw);
      return raw == encoded.value;
    }

    /** A poll stores the device's value of every setting that it read and leaves the others as they were. */
    method Poll(read: seq<Setting>)
      modifies this`store
      ensures store.Keys == old(store.Keys) + set id | id in read
      ensures forall id <- read :: store[id] == device.Get(id)
      ensures forall id <- old(store) :: id !in read ==> store[id] == old(store)[id]
      ensures Contents() == Step(old(Contents()), PollRead(set id | id in read))
    {
      for i := 0 to |read|
        invariant store.Keys == old(store.Keys) + set id | id in read[..i]
        invariant forall id <- read[..i] :: store[id] == device.Get(id)
        invariant forall id <- old(store) :: id !in read[..i] ==> store[id] == old(store)[id]
      {
        UpsertTelemetry(read[i], device.Get(read[i]));
        assert read[..i + 1] == read[..i] + [read[i]];
      }
      assert read[..|read|] == read;
      assert store == Polled(device, old(store), set id | id in read);
    }
  }

  function Polled(device: Levels, store: Store, read: set<Setting>): Store {
    store + map id | id in read :: device.Get(id)
  }

  // ----- runs -----

  datatype Event =
    | Request(id: Setting, value: Result<Word>, io: IO)
    | PollRead(read: set<Setting>)

  function Step(s: State, e: Event): State {
    match e
    case Request(id, value, io) => Write(s, id, value, io)
    case PollRead(read) => State(s.device, Polled(s.device, s.store, read))
  }

  function Run(s: State, es: seq<Event>): State
    decreases |es|
  {
    if es == [] then s else Run(Step(s, es[0]), es[1..])
  }

  /** The store says nothing about a setting that the device does not. */
  predicate Agrees(s: State) {
    forall id <- s.store :: s.store[id] == s.device.Get(id)
  }

  /** What the encoder guarantees of a request. */
  predicate WithinBounds(e: Event) {
    e.Request? && e.value.Ok? ==> Encodable(e.id, e.value.value)
  }

  /** A write that left the caller in the dark: it was done although it failed and could not be verified, or it was not
      done although it was acknowledged and could not be read back.  Each is a matter of the I/O and of the value that
      the register had before. */
  predicate Misleads(s: State, id: Setting, value: Word, io: IO) {
    && s.device.Get(id) != value
    && ((io.fate == Lost && !io.verifies && id in s.store) || (io.fate == Ignored && !io.readsBack))
  }

  predicate Clear(s: State, e: Event) {
    e.Request? && Attempted(s, e.id, e.value, e.io) ==> !Misleads(s, e.id, e.value.value, e.io)
  }

  lemma KnownIsActual(s: State)
    requires Agrees(s)
    ensures KnownLevels(s) == s.device
  {
  }

  /** One request keeps store and device in agreement exactly when it does not mislead. */
  lemma AgreementKeptIff(s: State, e: Event)
    requires Agrees(s)
    ensures Agrees(Step(s, e)) <==> Clear(s, e)
  {
    if e.Request? && Attempted(s, e.id, e.value, e.io) {
      var id, value, t := e.id, e.value.value, Step(s, e);
      forall other | other in t.store && other != id ensures t.store[other] == t.device.Get(other) {
        assert other in s.store;
      }
      assert Agrees(t) <==> (id in t.store ==> t.store[id] == t.device.Get(id));
    }
  }

  /** A poll puts right what it reads: afterwards store and device agree exactly if they agreed on what it missed. */
  lemma PollAgreesIff(s: State, read: set<Setting>)
    ensures Agrees(Step(s, PollRead(read))) <==> forall id <- s.store :: id !in read ==> s.store[id] == s.device.Get(id)
  {
    var t := Step(s, PollRead(read));
    if Agrees(t) {
      forall id | id in s.store && id !in read ensures s.store[id] == s.device.Get(id) {
        assert id in t.store && t.store[id] == s.store[id];
      }
    }
  }

  /** A request never disorders the device as long as the store agrees with it, misleading or not. */
  lemma OrderKept(s: State, e: Event)
    requires Agrees(s) && Ordered(s.device) && WithinBounds(e)
    ensures Ordered(Step(s, e).device)
  {
    if e.Request? && Attempted(s, e.id, e.value, e.io) {
      KnownIsActual(s);
      GuardIsOrder(s.device, e.id, e.value.value);
    }
  }

  predicate AllClear(s: State, es: seq<Event>)
    decreases |es|
  {
    es == [] || (WithinBounds(es[0]) && Clear(s, es[0]) && AllClear(Step(s, es[0]), es[1..]))
  }

  /** Over every run of requests and polls whose failures leave no doubt, the device stays in order and the store keeps
      agreeing with it. */
  lemma {:induction false} OrderAlways(s: State, es: seq<Event>)
    requires Agrees(s) && Ordered(s.device) && AllClear(s, es)
    ensures Agrees(Run(s, es)) && Ordered(Run(s, es).device)
    decreases |es|
  {
    if es != [] {
      AgreementKeptIff(s, es[0]);
      OrderKept(s, es[0]);
      OrderAlways(Step(s, es[0]), es[1..]);
    }
  }

  /** The client opens, and all settings are in the store or can be read. */
  predicate Reachable(s: State, io: IO) {
    io.opens && (io.answers || (Cutoff in s.store && Alarm in s.store && Stop in s.store && Start in s.store))
  }

  /** A request whose I/O gets through: it is done and acknowledged, or verified in spite of an error, and read back. */
  predicate GetsThrough(s: State, io: IO) {
    Reachable(s, io) && (io.fate == Applied || (io.fate == Lost && io.verifies)) && io.readsBack
  }

  /** What becomes of a request, whatever its I/O, from settings in order of which the store says nothing wrong.  It
      goes out exactly if it leaves them in order.  It succeeds exactly if in addition the device then has the value,
      the caller has an acknowledgement or has verified that, and the read after it gets through.  The store takes what
      was read, or without that read the value, if the caller has reason to believe in it, and is left alone if not. */
  lemma SucceedsIffOrdered(s: State, id: Setting, value: Word, io: IO)
    requires Agrees(s) && Ordered(s.device) && Encodable(id, value) && Reachable(s, io)
    ensures var ordered := Ordered(s.device.Set(id, value));
            var has := io.fate in {Applied, Lost} || s.device.Get(id) == value;
            var believed := io.fate in {Applied, Ignored} || (io.verifies && has);
            && (Succeeds(s, id, Ok(value), io) <==> ordered && has && believed && io.readsBack)
            && Write(s, id, Ok(value), io) ==
                 State(if ordered && io.fate in {Applied, Lost} then s.device.Set(id, value) else s.device,
                       if !ordered || !believed then s.store
                       else s.store[id := if has || !io.readsBack then value else s.device.Get(id)])
  {
    KnownIsActual(s);
    GuardIsOrder(s.device, id, value);
    GetSet(s.device, id, value);
  }

  lemma GetSet(l: Levels, id: Setting, value: Word)
    ensures l.Set(id, value).Get(id) == value
  {
    match id {
      case Cutoff =>
      case Alarm =>
      case Stop =>
      case Start =>
    }
  }

  /** Without that, order can be lost: a lost raise of the cut-off, then a lowering of the alarm checked against the
      cut-off of before. */
  lemma LostWriteDisorders() returns (s: State, es: seq<Event>)
    ensures Agrees(s) && Ordered(s.device)
    ensures forall i :: 0 <= i < |es| ==> WithinBounds(es[i])
    ensures !Ordered(Run(s, es).device)
  {
    var l := Levels(10, 30, 40, 60);
    s := State(l, map[Cutoff := 10, Alarm := 30, Stop := 40, Start := 60]);
    var lost := Request(Cutoff, Ok(25), IO(true, true, Lost, false, false));
    var lower := Request(Alarm, Ok(20), IO(true, true, Applied, true, true));
    es := [lost, lower];
    var t := Step(s, lost);
    assert t == State(l.(cutoff := 25), s.store);
    var u := Step(t, lower);
    assert u.device == Levels(25, 20, 40, 60);
    assert Run(u, []) == u && Run(t, [lower]) == u by {
      assert [lower][1..] == [];
    }
    assert es[1..] == [lower];
  }

  // ----- the guard traps nobody -----

  type Change = (Setting, Word)

  /** Writes made one after the other, all of them accepted, from settings that are in order and stay so. */
  predicate Allowed(l: Levels, path: seq<Change>)
    decreases |path|
  {
    Ordered(l) && (path == [] || (
      && Encodable(path[0].0, path[0].1) && Accepts(l, path[0].0, path[0].1)
      && Allowed(l.Set(path[0].0, path[0].1), path[1..])))
  }

  function Reached(l: Levels, path: seq<Change>): Levels
    decreases |path|
  {
    if path == [] then l else Reached(l.Set(path[0].0, path[0].1), path[1..])
  }

  predicate InBounds(l: Levels) {
    Encodable(Cutoff, l.cutoff) && Encodable(Alarm, l.alarm) && Encodable(Stop, l.stop) && Encodable(Start, l.start)
  }

  function One(b: bool): nat {
    if b then 1 else 0
  }

  /** In how many settings two states of the device differ. */
  function Differences(a: Levels, b: Levels): nat {
    One(a.cutoff != b.cutoff) + One(a.alarm != b.alarm) + One(a.stop != b.stop) + One(a.start != b.start)
  }

  /** Puts one change in front of a path, unless the setting has that value already. */
  function Via(l: Levels, id: Setting, value: Word, rest: seq<Change>): seq<Change> {
    if l.Get(id) == value then rest else [(id, value)] + rest
  }

  lemma ViaAllowed(l: Levels, id: Setting, value: Word, rest: seq<Change>)
    requires Ordered(l) && (l.Get(id) == value || Encodable(id, value)) && Allowed(l.Set(id, value), rest)
    ensures Allowed(l, Via(l, id, value, rest))
    ensures Reached(l, Via(l, id, value, rest)) == Reached(l.Set(id, value), rest)
    ensures |Via(l, id, value, rest)| == One(l.Get(id) != value) + |rest|
  {
    if l.Get(id) == value {
      assert l.Set(id, value) == l;
    } else {
      GuardIsOrder(l, id, value);
      assert ([(id, value)] + rest)[1..] == rest;
    }
  }

  /** The settings with the ends of a as far apart as either a or b has them. */
  function Wide(a: Levels, b: Levels): Levels {
    a.(start := if b.start > a.start then b.start else a.start,
       cutoff := if b.cutoff < a.cutoff then b.cutoff else a.cutoff)
  }

  lemma FromWide(a: Levels, b: Levels) returns (path: seq<Change>)
    requires Ordered(a) && Ordered(b) && InBounds(b)
    ensures Allowed(Wide(a, b), path) && Reached(Wide(a, b), path) == b
    ensures |path| == Differences(Wide(a, b), b)
  {
    var wide := Wide(a, b);
    var moved := wide.(alarm := b.alarm);
    var closed := moved.(cutoff := b.cutoff);
    var stopped := closed.(stop := b.stop);
    ViaAllowed(stopped, Start, b.start, []);
    path := Via(stopped, Start, b.start, []);
    ViaAllowed(closed, Stop, b.stop, path);
    path := Via(closed, Stop, b.stop, path);
    ViaAllowed(moved, Cutoff, b.cutoff, path);
    path := Via(moved, Cutoff, b.cutoff, path);
    ViaAllowed(wide, Alarm, b.alarm, path);
    path := Via(wide, Alarm, b.alarm, path);
  }

  /** Between any two orders there is a path of accepted writes that touches each differing setting once: the ends move
      apart first, then the middle moves, then the ends close in. */
  lemma Connected(a: Levels, b: Levels) returns (path: seq<Change>)
    requires Ordered(a) && Ordered(b) && InBounds(b)
    ensures Allowed(a, path) && Reached(a, path) == b
    ensures |path| == Differences(a, b) <= 4
  {
    var wide := Wide(a, b);
    var raised := a.(start := wide.start);
    path := FromWide(a, b);
    ViaAllowed(raised, Cutoff, wide.cutoff, path);
    path := Via(raised, Cutoff, wide.cutoff, path);
    ViaAllowed(a, Start, wide.start, path);
    path := Via(a, Start, wide.start, path);
  }

  /** The requests that make these changes. */
  function Requests(path: seq<Change>, io: IO): seq<Event>
    decreases |path|
  {
    if path == [] then [] else [Request(path[0].0, Ok(path[0].1), io)] + Requests(path[1..], io)
  }

  lemma {:induction false} PathCarriedOut(s: State, path: seq<Change>, io: IO)
    requires Agrees(s) && Allowed(s.device, path) && GetsThrough(s, io)
    ensures |Requests(path, io)| == |path|
    ensures Run(s, Requests(path, io)).device == Reached(s.device, path)
    decreases |path|
  {
    if path != [] {
      var id, value := path[0].0, path[0].1;
      var es := Requests(path, io);
      KnownIsActual(s);
      GuardIsOrder(s.device, id, value);
      SucceedsIffOrdered(s, id, value, io);
      AgreementKeptIff(s, es[0]);
      assert es[1..] == Requests(path[1..], io);
      PathCarriedOut(Step(s, es[0]), path[1..], io);
    }
  }

  /** From any settings in order, any others in order are on the device after at most four requests that get through. */
  lemma AnyOrderReached(s: State, target: Levels, io: IO) returns (es: seq<Event>)
    requires Agrees(s) && Ordered(s.device) && Ordered(target) && InBounds(target) && GetsThrough(s, io)
    ensures Run(s, es).device == target
    ensures |es| == Differences(s.device, target) <= 4
  {
    var path := Connected(s.device, target);
    PathCarriedOut(s, path, io);
    es := Requests(path, io);
  }

  /** No path is shorter, accepted by the guard or not. */
  lemma {:induction false} NoShorterPath(a: Levels, path: seq<Change>)
    ensures Differences(a, Reached(a, path)) <= |path|
    decreases |path|
  {
    if path != [] {
      var next := a.Set(path[0].0, path[0].1);
      NoShorterPath(next, path[1..]);
      OneChange(a, path[0].0, path[0].1, Reached(a, path));
    }
  }

  lemma OneChange(a: Levels, id: Setting, value: Word, b: Levels)
    ensures Differences(a, b) <= Differences(a.Set(id, value), b) + 1
  {
    match id {
      case Cutoff =>
      case Alarm =>
      case Stop =>
      case Start =>
    }
  }
}
