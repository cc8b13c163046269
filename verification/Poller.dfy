/** One poll cycle: the ranges of a plan are read one after the other and cut back into registers. */
module Poller {
  import opened Common
  import opened Registers
  import opened ReadPlan

  /** How one range was answered, after the one retry that a failed read gets. */
  datatype Response = OpenFailed | ReadFailed | Payload(data: seq<Octet>)

  datatype PollError =
    | OpenError(range: nat)
    | Aborted
    | ReadError(range: nat)
    | PayloadError(range: nat)
    | OverflowError(address: Word)
    | DecodeError(address: Word)
    | NothingConfigured

  datatype Status = Connected | Degraded(errors: seq<PollError>) | Failed(errors: seq<PollError>)

  datatype Outcome<V> = Outcome(values: seq<V>, errors: seq<PollError>)
  {
    function Then(next: Outcome<V>): Outcome<V> {
      Outcome(values + next.values, errors + next.errors)
    }
  }

  /** How a register's own words are decoded.  A cycle does not depend on it. */
  type Decoder<!V> = (Register, seq<Word>) -> Result<V>

  const MAX_OPEN_FAILURES := 2

  // ----- what a poll cycle makes of the responses -----

  function DecodeIn<V>(decode: Decoder<V>, words: seq<Word>, start: Word, r: Register): Outcome<V>
  {
    var offset := Sub16(r.address, start);
    if offset + r.count > |words| then Outcome([], [OverflowError(r.address)])
    else OneValue(decode, r, words[offset..offset + r.count])
  }

  function OneValue<V>(decode: Decoder<V>, r: Register, own: seq<Word>): Outcome<V>
  {
    match decode(r, own)
    case Err => Outcome([], [DecodeError(r.address)])
    case Ok(value) => Outcome([value], [])
  }

  function DecodeAll<V>(decode: Decoder<V>, words: seq<Word>, start: Word, regs: seq<Register>): Outcome<V>
    decreases |regs|
  {
    if regs == [] then Outcome([], [])
    else DecodeAll(decode, words, start, regs[..|regs| - 1]).Then(DecodeIn(decode, words, start, regs[|regs| - 1]))
  }

  function RangeOutcome<V>(decode: Decoder<V>, range: Range, index: nat, response: Response): Outcome<V>
  {
    match response
    case OpenFailed => Outcome([], [OpenError(index)])
    case ReadFailed => Outcome([], [ReadError(index)])
    case Payload(data) =>
      if |data| % 2 != 0 || |data| < 2 * range.count then Outcome([], [PayloadError(index)])
      else DecodeAll(decode, Words(data), range.start, range.registers)
  }

  /** The outcome of the first n ranges, each on its own. */
  function RangesOutcome<V>(decode: Decoder<V>, plan: seq<Range>, responses: seq<Response>, n: nat): Outcome<V>
    requires n <= |plan| == |responses|
  {
    if n == 0 then Outcome([], [])
    else RangesOutcome(decode, plan, responses, n - 1).Then(RangeOutcome(decode, plan[n - 1], n - 1, responses[n - 1]))
  }

  /** The cycle gives up behind range n - 1 when the connection could not be opened twice in a row. */
  predicate GivesUp(responses: seq<Response>, n: nat) {
    2 <= n <= |responses| && responses[n - 1].OpenFailed? && responses[n - 2].OpenFailed?
  }

  /** How many ranges a cycle tries, k of which it has tried. */
  function TriedFrom(responses: seq<Response>, k: nat): nat
    decreases |responses| - k
  {
    if k >= |responses| || GivesUp(responses, k) then k else TriedFrom(responses, k + 1)
  }

  function Tried(responses: seq<Response>): nat {
    TriedFrom(responses, 0)
  }

  lemma {:induction false} TriedFromIsFirst(responses: seq<Response>, k: nat)
    requires k <= |responses| && forall j :: 0 <= j < k ==> !GivesUp(responses, j)
    ensures var n := TriedFrom(responses, k);
            && k <= n <= |responses|
            && (forall j :: 0 <= j < n ==> !GivesUp(responses, j))
            && (n < |responses| ==> GivesUp(responses, n))
    decreases |responses| - k
  {
    if k < |responses| && !GivesUp(responses, k) {
      TriedFromIsFirst(responses, k + 1);
    }
  }

  /** A cycle tries every range up to the first two failures to connect in a row. */
  lemma TriedIsFirst(responses: seq<Response>)
    ensures var n := Tried(responses);
            && n <= |responses|
            && (forall j :: 0 <= j < n ==> !GivesUp(responses, j))
            && (n < |responses| ==> GivesUp(responses, n))
  {
    TriedFromIsFirst(responses, 0);
  }

  /** What a whole cycle makes of the responses. */
  function CycleOutcome<V>(decode: Decoder<V>, plan: seq<Range>, responses: seq<Response>): Outcome<V>
    requires |plan| == |responses|
  {
    TriedIsFirst(responses);
    var tried := Tried(responses);
    Ended(RangesOutcome(decode, plan, responses, tried), GivesUp(responses, tried))
  }

  function Ended<V>(outcome: Outcome<V>, gaveUp: bool): Outcome<V> {
    if gaveUp then outcome.Then(Outcome([], [Aborted])) else outcome
  }

  function StatusOf<V>(outcome: Outcome<V>): Status {
    if outcome.values != [] then
      if outcome.errors != [] then Degraded(outcome.errors) else Connected
    else Failed(if outcome.errors == [] then [NothingConfigured] else outcome.errors)
  }

  // ----- the cycle -----

  method DecodeRange<V>(decode: Decoder<V>, words: seq<Word>, range: Range) returns (outcome: Outcome<V>)
    ensures outcome == DecodeAll(decode, words, range.start, range.registers)
  {
    var regs := range.registers;
    var values: seq<V>, errors: seq<PollError> := [], [];
    for i := 0 to |regs|
      invariant Outcome(values, errors) == DecodeAll(decode, words, range.start, regs[..i])
    {
      var reg := regs[i];
      assert regs[..i + 1][..i] == regs[..i];
      var offset := Sub16(reg.address, range.start);
      var end := offset + reg.count;
      if offset < 0 || end > |words| {
        errors := errors + [OverflowError(reg.address)];
        continue;
      }
      match decode(reg, words[offset..end]) {
        case Err => errors := errors + [DecodeError(reg.address)];
        case Ok(decoded) => values := values + [decoded];
      }
    }
    assert regs[..|regs|] == regs;
    outcome := Outcome(values, errors);
  }

  /** What one answered or unanswered range adds to a cycle. */
  method PollRange<V>(decode: Decoder<V>, range: Range, index: nat, response: Response) returns (outcome: Outcome<V>)
    ensures outcome == RangeOutcome(decode, range, index, response)
  {
    match response {
      case OpenFailed =>
        outcome := Outcome([], [OpenError(index)]);
      case ReadFailed =>
        outcome := Outcome([], [ReadError(index)]);
      case Payload(data) =>
        var words := WordsFromBytes(data, range.count);
        if words.Err? {
          return Outcome([], [PayloadError(index)]);
        }
        outcome := DecodeRange(decode, words.value, range);
    }
  }

  /** What the cycle leaves for the store and the service status. */
  method Report<V>(total: Outcome<V>) returns (values: seq<V>, status: Status)
    ensures values == total.values && status == StatusOf(total)
  {
    values := total.values;
    var errors := total.errors;
    if |values| > 0 {
      status := if |errors| > 0 then Degraded(errors) else Connected;
      return;
    }
    if |errors| == 0 {
      errors := [NothingConfigured];
    }
    status := Failed(errors);
  }

  method PollGroup<V>(decode: Decoder<V>, plan: seq<Range>, responses: seq<Response>)
    returns (values: seq<V>, status: Status)
    requires |plan| == |responses|
    ensures values == CycleOutcome(decode, plan, responses).values
    ensures status == StatusOf(CycleOutcome(decode, plan, responses))
    ensures var errors := CycleOutcome(decode, plan, responses).errors;
            && (status == Connected <==> values != [] && errors == [])
            && (status == Degraded(errors) <==> values != [] && errors != [])
            && (status.Failed? <==> values == [])
            && (status.Failed? ==> status.errors == if errors == [] then [NothingConfigured] else errors)
  {
    var total := Outcome([], []);
    var openFailures := 0;
    var idx := 0;
    while idx < |plan|
      invariant 0 <= idx <= |plan|
      invariant total == RangesOutcome(decode, plan, responses, idx)
      invariant Tried(responses) == TriedFrom(responses, idx) && !GivesUp(responses, idx)
      invariant openFailures == if idx > 0 && responses[idx - 1].OpenFailed? then 1 else 0
    {
      var outcome := PollRange(decode, plan[idx], idx, responses[idx]);
      total := total.Then(outcome);
      openFailures := if responses[idx].OpenFailed? then openFailures + 1 else 0;
      idx := idx + 1;
      if openFailures >= MAX_OPEN_FAILURES {
        total := total.Then(Outcome([], [Aborted]));
        break;
      }
    }
    values, status := Report(total);
  }

  // ----- batches agree with single reads -----

  /** What reading one register by itself gives. */
  function Alone<V>(decode: Decoder<V>, memory: Memory, r: Register): Outcome<V>
    requires Addressable(r)
  {
    OneValue(decode, r, ReadWords(memory, r.address, r.count))
  }

  function EachAlone<V>(decode: Decoder<V>, memory: Memory, regs: seq<Register>): Outcome<V>
    requires AllAddressable(regs)
    decreases |regs|
  {
    if regs == [] then Outcome([], [])
    else EachAlone(decode, memory, regs[..|regs| - 1]).Then(Alone(decode, memory, regs[|regs| - 1]))
  }

  /** A response that carries the words which the device had when the range was read. */
  predicate Honest(memory: Memory, range: Range, response: Response)
    requires End(range) <= 0x1_0000
  {
    response == Payload(Bytes(ReadWords(memory, range.start, range.count)))
  }

  lemma SliceOfRead(memory: Memory, start: Word, count: Word, at: Word, n: Word)
    requires start <= at && at + n <= start + count <= 0x1_0000
    ensures ReadWords(memory, start, count)[at - start..at - start + n] == ReadWords(memory, at, n)
  {
  }

  lemma InRange<V>(decode: Decoder<V>, memory: Memory, range: Range, r: Register)
    requires Addressable(r) && Within(range, r) && End(range) <= 0x1_0000
    ensures DecodeIn(decode, ReadWords(memory, range.start, range.count), range.start, r) == Alone(decode, memory, r)
  {
    SliceOfRead(memory, range.start, range.count, r.address, r.count);
    assert Sub16(r.address, range.start) == r.address - range.start;
  }

  lemma {:induction false} AllInRange<V>(decode: Decoder<V>, memory: Memory, range: Range, regs: seq<Register>)
    requires AllAddressable(regs) && End(range) <= 0x1_0000
    requires forall i :: 0 <= i < |regs| ==> Within(range, regs[i])
    ensures DecodeAll(decode, ReadWords(memory, range.start, range.count), range.start, regs)
         == EachAlone(decode, memory, regs)
    decreases |regs|
  {
    if regs != [] {
      AllInRange(decode, memory, range, regs[..|regs| - 1]);
      InRange(decode, memory, range, regs[|regs| - 1]);
    }
  }

  lemma HonestRange<V>(decode: Decoder<V>, memory: Memory, range: Range, index: nat, response: Response)
    requires Exact(range) && Honest(memory, range, response)
    ensures RangeOutcome(decode, range, index, response) == EachAlone(decode, memory, range.registers)
  {
    WordsOfBytes(ReadWords(memory, range.start, range.count));
    AllInRange(decode, memory, range, range.registers);
  }

  /** The registers of the answered ranges, each read alone from the device as it was at that range. */
  function AnsweredAlone<V>(decode: Decoder<V>, device: nat -> Memory,
                            plan: seq<Range>, responses: seq<Response>, n: nat): seq<V>
    requires n <= |plan| == |responses|
    requires forall i :: 0 <= i < |plan| ==> AllAddressable(plan[i].registers)
  {
    if n == 0 then []
    else
      AnsweredAlone(decode, device, plan, responses, n - 1)
      + if responses[n - 1].Payload? then EachAlone(decode, device(n - 1), plan[n - 1].registers).values else []
  }

  ghost predicate HonestWhereAnswered(device: nat -> Memory, plan: seq<Range>, responses: seq<Response>)
    requires |plan| == |responses| && ExactPlan(plan)
  {
    forall i :: 0 <= i < |plan| && responses[i].Payload? ==> HonestAt(device, plan, responses, i)
  }

  ghost predicate HonestAt(device: nat -> Memory, plan: seq<Range>, responses: seq<Response>, i: nat)
    requires |plan| == |responses| && ExactPlan(plan) && i < |plan|
  {
    assert Exact(plan[i]);
    Honest(device(i), plan[i], responses[i])
  }

  /** Whatever else fails, every value that a cycle yields is decoded from the register's own words. */
  lemma {:induction false} PartialPoll<V>(decode: Decoder<V>, device: nat -> Memory,
                                          plan: seq<Range>, responses: seq<Response>, n: nat)
    requires n <= |plan| == |responses| && ExactPlan(plan)
    requires HonestWhereAnswered(device, plan, responses)
    ensures RangesOutcome(decode, plan, responses, n).values == AnsweredAlone(decode, device, plan, responses, n)
  {
    if n > 0 {
      PartialPoll(decode, device, plan, responses, n - 1);
      assert Exact(plan[n - 1]);
      if responses[n - 1].Payload? {
        assert HonestAt(device, plan, responses, n - 1);
        HonestRange(decode, device(n - 1), plan[n - 1], n - 1, responses[n - 1]);
      }
    }
  }

  lemma ThenInTurn<V>(a: Outcome<V>, b: Outcome<V>, c: Outcome<V>)
    ensures a.Then(b.Then(c)) == a.Then(b).Then(c) && a.Then(Outcome([], [])) == a
  {
  }

  lemma {:induction false} EachAloneAppend<V>(decode: Decoder<V>, memory: Memory, a: seq<Register>, b: seq<Register>)
    requires AllAddressable(a) && AllAddressable(b)
    ensures AllAddressable(a + b)
    ensures EachAlone(decode, memory, a + b) == EachAlone(decode, memory, a).Then(EachAlone(decode, memory, b))
    decreases |b|
  {
    if b == [] {
      assert a + b == a;
      ThenInTurn(EachAlone(decode, memory, a), Outcome([], []), Outcome([], []));
    } else {
      var n := |b| - 1;
      var ab := a + b;
      assert ab[..|ab| - 1] == a + b[..n] && ab[|ab| - 1] == b[n];
      EachAloneAppend(decode, memory, a, b[..n]);
      ThenInTurn(EachAlone(decode, memory, a), EachAlone(decode, memory, b[..n]), Alone(decode, memory, b[n]));
    }
  }

  lemma {:induction false} HonestPrefix<V>(decode: Decoder<V>, memory: Memory,
                                           plan: seq<Range>, responses: seq<Response>, n: nat)
    requires n <= |plan| == |responses| && ExactPlan(plan)
    requires HonestWhereAnswered(_ => memory, plan, responses)
    requires forall i :: 0 <= i < |plan| ==> responses[i].Payload?
    ensures AllAddressable(Planned(plan[..n]))
    ensures RangesOutcome(decode, plan, responses, n) == EachAlone(decode, memory, Planned(plan[..n]))
  {
    if n > 0 {
      HonestPrefix(decode, memory, plan, responses, n - 1);
      assert Exact(plan[n - 1]) && HonestAt(_ => memory, plan, responses, n - 1);
      HonestRange(decode, memory, plan[n - 1], n - 1, responses[n - 1]);
      assert plan[..n][..n - 1] == plan[..n - 1];
      EachAloneAppend(decode, memory, Planned(plan[..n - 1]), plan[n - 1].registers);
    }
  }

  /** When every range is answered, a cycle tries them all and yields exactly what reading every planned register by
      itself would, in the order of the plan, with no other errors. */
  lemma {:induction false} BatchedIsAlone<V>(decode: Decoder<V>, memory: Memory,
                                             plan: seq<Range>, responses: seq<Response>)
    requires |plan| == |responses| && ExactPlan(plan)
    requires HonestWhereAnswered(_ => memory, plan, responses)
    requires forall i :: 0 <= i < |plan| ==> responses[i].Payload?
    ensures AllAddressable(Planned(plan))
    ensures CycleOutcome(decode, plan, responses) == EachAlone(decode, memory, Planned(plan))
  {
    TriedIsFirst(responses);
    assert Tried(responses) == |plan|;
    HonestPrefix(decode, memory, plan, responses, |plan|);
    assert plan[..|plan|] == plan;
  }

  predicate DecodesTo<V(==)>(decode: Decoder<V>, memory: Memory, r: Register, value: V)
    requires Addressable(r)
  {
    decode(r, ReadWords(memory, r.address, r.count)) == Ok(value)
  }

  /** Unless a register cannot be decoded, each is there once, at its place in the plan. */
  lemma {:induction false} EachOnce<V>(decode: Decoder<V>, memory: Memory, regs: seq<Register>)
    requires AllAddressable(regs) && EachAlone(decode, memory, regs).errors == []
    ensures |EachAlone(decode, memory, regs).values| == |regs|
    ensures forall i :: 0 <= i < |regs| ==>
              DecodesTo(decode, memory, regs[i], EachAlone(decode, memory, regs).values[i])
    decreases |regs|
  {
    if regs != [] {
      var n := |regs| - 1;
      var init, last := EachAlone(decode, memory, regs[..n]), Alone(decode, memory, regs[n]);
      assert init.errors == [] && last.errors == [];
      EachOnce(decode, memory, regs[..n]);
      forall i | 0 <= i < |regs| ensures DecodesTo(decode, memory, regs[i], (init.values + last.values)[i]) {
        if i < n {
          assert DecodesTo(decode, memory, regs[..n][i], init.values[i]);
        }
      }
    }
  }

  // ----- what the status tells -----

  /** Registers read alone give a value each, or an error with the register's address. */
  lemma {:induction false} EachCounted<V>(decode: Decoder<V>, memory: Memory, regs: seq<Register>)
    requires AllAddressable(regs)
    ensures var outcome := EachAlone(decode, memory, regs);
            && |outcome.values| + |outcome.errors| == |regs|
            && forall e :: e in outcome.errors <==>
                             exists r :: r in regs && e == DecodeError(r.address)
                                         && decode(r, ReadWords(memory, r.address, r.count)).Err?
    decreases |regs|
  {
    if regs != [] {
      var n := |regs| - 1;
      EachCounted(decode, memory, regs[..n]);
      assert regs == regs[..n] + [regs[n]];
    }
  }

  /** When every range is answered from one state of the device, the cycle is connected exactly when there are registers
      and each of them decodes; it has failed exactly when none does. */
  lemma ConnectedIff<V>(decode: Decoder<V>, memory: Memory, plan: seq<Range>, responses: seq<Response>)
    requires |plan| == |responses| && ExactPlan(plan)
    requires HonestWhereAnswered(_ => memory, plan, responses)
    requires forall i :: 0 <= i < |plan| ==> responses[i].Payload?
    ensures AllAddressable(Planned(plan))
    ensures var status := StatusOf(CycleOutcome(decode, plan, responses));
            && (status == Connected <==>
                  && Planned(plan) != []
                  && forall r :: r in Planned(plan) ==> decode(r, ReadWords(memory, r.address, r.count)).Ok?)
            && (status.Failed? <==>
                  forall r :: r in Planned(plan) ==> decode(r, ReadWords(memory, r.address, r.count)).Err?)
  {
    BatchedIsAlone(decode, memory, plan, responses);
    EachCounted(decode, memory, Planned(plan));
    var outcome := EachAlone(decode, memory, Planned(plan));
    if outcome.errors == [] {
      forall r | r in Planned(plan) ensures decode(r, ReadWords(memory, r.address, r.count)).Ok? {
        assert DecodeError(r.address) !in outcome.errors;
      }
    } else {
      assert outcome.errors[0] in outcome.errors;
    }
    NoneDecodes(decode, memory, Planned(plan));
  }

  lemma {:induction false} NoneDecodes<V>(decode: Decoder<V>, memory: Memory, regs: seq<Register>)
    requires AllAddressable(regs)
    ensures EachAlone(decode, memory, regs).values == []
            <==> forall r :: r in regs ==> decode(r, ReadWords(memory, r.address, r.count)).Err?
    decreases |regs|
  {
    if regs != [] {
      var n := |regs| - 1;
      NoneDecodes(decode, memory, regs[..n]);
      assert regs == regs[..n] + [regs[n]];
    }
  }

  // ----- which ranges the errors name -----

  /** No two ranges before this one in a row failed to connect. */
  predicate Reached(responses: seq<Response>, i: nat) {
    forall j :: 0 < j < i && j < |responses| ==> !(responses[j].OpenFailed? && responses[j - 1].OpenFailed?)
  }

  predicate OfRange(e: PollError) {
    e.OpenError? || e.ReadError? || e.PayloadError?
  }

  /** The error that fits how a range was answered: a payload is no good if it is of odd length or too short. */
  predicate Fits(e: PollError, range: Range, response: Response) {
    || (e.OpenError? && response.OpenFailed?)
    || (e.ReadError? && response.ReadFailed?)
    || (e.PayloadError? && response.Payload?
        && (|response.data| % 2 == 1 || |response.data| < 2 * range.count))
  }

  lemma {:induction false} DecodingErrors<V>(decode: Decoder<V>, words: seq<Word>, start: Word, regs: seq<Register>)
    ensures forall e :: e in DecodeAll(decode, words, start, regs).errors ==> e.OverflowError? || e.DecodeError?
    decreases |regs|
  {
    if regs != [] {
      DecodingErrors(decode, words, start, regs[..|regs| - 1]);
    }
  }

  lemma RangeError<V>(decode: Decoder<V>, range: Range, index: nat, response: Response, e: PollError)
    requires OfRange(e) || e == Aborted
    ensures e in RangeOutcome(decode, range, index, response).errors
            <==> OfRange(e) && e.range == index && Fits(e, range, response)
  {
    match response {
      case Payload(data) => DecodingErrors(decode, Words(data), range.start, range.registers);
      case _ =>
    }
  }

  lemma {:induction false} RangesError<V>(decode: Decoder<V>, plan: seq<Range>, responses: seq<Response>, n: nat,
                                          e: PollError)
    requires n <= |plan| == |responses| && (OfRange(e) || e == Aborted)
    ensures e in RangesOutcome(decode, plan, responses, n).errors
            <==> OfRange(e) && e.range < n && Fits(e, plan[e.range], responses[e.range])
  {
    if n > 0 {
      RangesError(decode, plan, responses, n - 1, e);
      RangeError(decode, plan[n - 1], n - 1, responses[n - 1], e);
    }
  }

  lemma TriedIffReached(responses: seq<Response>)
    ensures forall i :: 0 <= i < |responses| ==> (i < Tried(responses) <==> Reached(responses, i))
    ensures GivesUp(responses, Tried(responses)) <==> !Reached(responses, |responses|)
  {
    TriedIsFirst(responses);
    var n := Tried(responses);
    forall i | 0 <= i <= |responses| ensures i < n ==> Reached(responses, i) {
      if i < n {
        forall j | 0 < j < i ensures !(responses[j].OpenFailed? && responses[j - 1].OpenFailed?) {
          assert !GivesUp(responses, j + 1);
        }
      }
    }
    if GivesUp(responses, n) {
      assert responses[n - 1].OpenFailed? && responses[n - 2].OpenFailed?;
    } else {
      forall j | 0 < j < n ensures !(responses[j].OpenFailed? && responses[j - 1].OpenFailed?) {
        assert !GivesUp(responses, j + 1);
      }
    }
  }

  /** A cycle's errors name exactly the ranges that were reached and not answered as they should be, and it says that it
      gave up exactly when two ranges in a row could not be connected to. */
  lemma ErrorsNameRanges<V>(decode: Decoder<V>, plan: seq<Range>, responses: seq<Response>, e: PollError)
    requires |plan| == |responses|
    ensures var errors := CycleOutcome(decode, plan, responses).errors;
            && (OfRange(e) ==>
                  (e in errors <==> e.range < |plan| && Reached(responses, e.range)
                                    && Fits(e, plan[e.range], responses[e.range])))
            && (Aborted in errors <==> !Reached(responses, |responses|))
  {
    TriedIsFirst(responses);
    TriedIffReached(responses);
    RangesError(decode, plan, responses, Tried(responses), Aborted);
    if OfRange(e) {
      RangesError(decode, plan, responses, Tried(responses), e);
    }
  }

  // ----- an error that cannot happen -----

  predicate NoOverflow(errors: seq<PollError>) {
    forall i :: 0 <= i < |errors| ==> !errors[i].OverflowError?
  }

  lemma {:induction false} RangeNeverOverflows<V>(decode: Decoder<V>, range: Range,
                                                  words: seq<Word>, regs: seq<Register>)
    requires AllAddressable(regs) && |words| >= range.count
    requires forall i :: 0 <= i < |regs| ==> Within(range, regs[i])
    ensures NoOverflow(DecodeAll(decode, words, range.start, regs).errors)
    decreases |regs|
  {
    if regs != [] {
      RangeNeverOverflows(decode, range, words, regs[..|regs| - 1]);
    }
  }

  /** No response, however long or short, makes a cycle report a register that lies outside its range. */
  lemma {:induction false} NeverOverflows<V>(decode: Decoder<V>, plan: seq<Range>, responses: seq<Response>, n: nat)
    requires n <= |plan| == |responses| && ExactPlan(plan)
    ensures NoOverflow(RangesOutcome(decode, plan, responses, n).errors)
  {
    if n > 0 {
      NeverOverflows(decode, plan, responses, n - 1);
      var range := plan[n - 1];
      assert Exact(range);
      match responses[n - 1] {
        case Payload(data) =>
          if |data| % 2 == 0 && |data| >= 2 * range.count {
            RangeNeverOverflows(decode, range, Words(data), range.registers);
          }
        case _ =>
      }
    }
  }

  // ----- with the catalog's decoder -----

  function RegisterDecoder(r: Register, words: seq<Word>): Result<Decoded> {
    if r.count == 0 then Err else Decode(r, words)
  }

  /** A cycle over the plan of some registers, every range answered from one state of the device, gives every register
      the value that decoding its own words gives, each exactly once. */
  lemma CatalogPoll(memory: Memory, regs: seq<Register>, plan: seq<Range>, responses: seq<Response>)
    requires ExactPlan(plan) && multiset(Planned(plan)) == multiset(regs)
    requires |plan| == |responses|
    requires HonestWhereAnswered(_ => memory, plan, responses)
    requires forall i :: 0 <= i < |plan| ==> responses[i].Payload?
    ensures var outcome := CycleOutcome(RegisterDecoder, plan, responses);
            outcome.errors == [] ==>
              && |outcome.values| == |regs|
              && AllAddressable(Planned(plan)) && |Planned(plan)| == |regs|
              && forall i :: 0 <= i < |regs| ==> DecodesTo(RegisterDecoder, memory, Planned(plan)[i], outcome.values[i])
  {
    BatchedIsAlone(RegisterDecoder, memory, plan, responses);
    assert |multiset(Planned(plan))| == |Planned(plan)|;
    if EachAlone(RegisterDecoder, memory, Planned(plan)).errors == [] {
      EachOnce(RegisterDecoder, memory, Planned(plan));
    }
  }

  // ----- no id twice -----

  /** The ids of some values, in their order, among those of some registers. */
  predicate Among(values: seq<Decoded>, regs: seq<Register>)
    decreases |regs|
  {
    if regs == [] then values == []
    else
      var n := |regs| - 1;
      || Among(values, regs[..n])
      || (values != [] && values[|values| - 1].id == regs[n].id && Among(values[..|values| - 1], regs[..n]))
  }

  lemma {:induction false} AmongWhere(values: seq<Decoded>, regs: seq<Register>, i: nat) returns (k: nat)
    requires Among(values, regs) && i < |values|
    ensures k < |regs| && values[i].id == regs[k].id
    decreases |regs|
  {
    var n := |regs| - 1;
    if Among(values, regs[..n]) {
      k := AmongWhere(values, regs[..n], i);
    } else if i == |values| - 1 {
      k := n;
    } else {
      k := AmongWhere(values[..|values| - 1], regs[..n], i);
    }
  }

  lemma {:induction false} AmongAppend(a: seq<Decoded>, regs: seq<Register>, b: seq<Decoded>, more: seq<Register>)
    requires Among(a, regs) && Among(b, more)
    ensures Among(a + b, regs + more)
    decreases |more|
  {
    if more == [] {
      assert a + b == a && regs + more == regs;
    } else {
      var n := |more| - 1;
      var all := regs + more;
      assert all[..|all| - 1] == regs + more[..n] && all[|all| - 1] == more[n];
      if Among(b, more[..n]) {
        AmongAppend(a, regs, b, more[..n]);
      } else {
        AmongAppend(a, regs, b[..|b| - 1], more[..n]);
        assert (a + b)[..|a + b| - 1] == a + b[..|b| - 1];
      }
    }
  }

  predicate DistinctRegisters(regs: seq<Register>) {
    forall i, j :: 0 <= i < j < |regs| ==> regs[i].id != regs[j].id
  }

  predicate DistinctValues(values: seq<Decoded>) {
    forall i, j :: 0 <= i < j < |values| ==> values[i].id != values[j].id
  }

  lemma {:induction false} AmongDistinct(values: seq<Decoded>, regs: seq<Register>)
    requires Among(values, regs) && DistinctRegisters(regs)
    ensures DistinctValues(values)
    decreases |regs|
  {
    if regs != [] {
      var n := |regs| - 1;
      if Among(values, regs[..n]) {
        AmongDistinct(values, regs[..n]);
      } else {
        var last := |values| - 1;
        AmongDistinct(values[..last], regs[..n]);
        forall i | 0 <= i < last ensures values[i].id != values[last].id {
          var k := AmongWhere(values[..last], regs[..n], i);
        }
      }
    }
  }

  lemma NoneAmong(regs: seq<Register>)
    ensures Among([], regs)
    decreases |regs|
  {
    if regs != [] {
      NoneAmong(regs[..|regs| - 1]);
    }
  }

  lemma OneAmong(words: seq<Word>, start: Word, r: Register)
    ensures Among(DecodeIn(RegisterDecoder, words, start, r).values, [r])
  {
    NoneAmong([r]);
    assert [r][..0] == [];
    var values := DecodeIn(RegisterDecoder, words, start, r).values;
    if values != [] {
      assert values[..0] == [];
    }
  }

  lemma {:induction false} AllAmong(words: seq<Word>, start: Word, regs: seq<Register>)
    ensures Among(DecodeAll(RegisterDecoder, words, start, regs).values, regs)
    decreases |regs|
  {
    if regs != [] {
      var n := |regs| - 1;
      AllAmong(words, start, regs[..n]);
      OneAmong(words, start, regs[n]);
      AmongAppend(DecodeAll(RegisterDecoder, words, start, regs[..n]).values, regs[..n],
                  DecodeIn(RegisterDecoder, words, start, regs[n]).values, [regs[n]]);
      assert regs[..n] + [regs[n]] == regs;
    }
  }

  lemma RangeAmong(range: Range, index: nat, response: Response)
    ensures Among(RangeOutcome(RegisterDecoder, range, index, response).values, range.registers)
  {
    NoneAmong(range.registers);
    match response {
      case Payload(data) => AllAmong(Words(data), range.start, range.registers);
      case _ =>
    }
  }

  lemma {:induction false} RangesAmong(plan: seq<Range>, responses: seq<Response>, n: nat)
    requires n <= |plan| == |responses|
    ensures Among(RangesOutcome(RegisterDecoder, plan, responses, n).values, Planned(plan[..n]))
  {
    if n > 0 {
      RangesAmong(plan, responses, n - 1);
      RangeAmong(plan[n - 1], n - 1, responses[n - 1]);
      var before := RangesOutcome(RegisterDecoder, plan, responses, n - 1).values;
      var more := RangeOutcome(RegisterDecoder, plan[n - 1], n - 1, responses[n - 1]).values;
      AmongAppend(before, Planned(plan[..n - 1]), more, plan[n - 1].registers);
      assert plan[..n][..n - 1] == plan[..n - 1];
      assert RangesOutcome(RegisterDecoder, plan, responses, n).values == before + more;
    }
  }

  /** Whatever is answered, a cycle over registers with different ids hands the store no id twice. */
  lemma PollIdsDistinct(plan: seq<Range>, responses: seq<Response>)
    requires |plan| == |responses| && DistinctRegisters(Planned(plan))
    ensures DistinctValues(CycleOutcome(RegisterDecoder, plan, responses).values)
  {
    TriedIsFirst(responses);
    var n := Tried(responses);
    RangesAmong(plan, responses, n);
    PlannedPrefix(plan, n);
    AmongDistinct(RangesOutcome(RegisterDecoder, plan, responses, n).values, Planned(plan[..n]));
  }

  lemma {:induction false} PlannedPrefix(plan: seq<Range>, n: nat)
    requires n <= |plan|
    ensures Planned(plan[..n]) <= Planned(plan)
    decreases |plan|
  {
    if n == |plan| {
      assert plan[..n] == plan;
    } else {
      PlannedPrefix(plan[..|plan| - 1], n);
      assert plan[..|plan| - 1][..n] == plan[..n];
    }
  }
}
