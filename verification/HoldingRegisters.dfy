/** Block reads and writes of holding registers, as the inverter clock and the charging schedule use them. */
module HoldingRegisters {
  import opened Common
  import opened ReadPlan

  /** A write as it goes over the wire. */
  datatype Request = Single(address: Word, value: Word) | Multiple(address: Word, count: Word, payload: seq<Octet>)

  /** What a device does that carries a request out. */
  function Applied(memory: Memory, request: Request): Memory {
    match request
    case Single(address, value) => (a: Word) => if a == address then value else memory(a)
    case Multiple(address, count, payload) =>
      (a: Word) =>
        if address <= a < address + count && a - address < |payload| / 2 then Words(payload)[a - address]
        else memory(a)
  }

  /** How the I/O of one call turns out: whether the client opens, whether the write is acknowledged, and the payload
      that the read after it gets, if any. */
  datatype IO = IO(opens: bool, acknowledged: bool, readback: Option<seq<Octet>>)

  predicate Writable(values: seq<Word>) {
    0 < |values| < 0x1_0000
  }

  /** Whether a payload carries words that begin with the given ones. */
  predicate Echoes(payload: seq<Octet>, values: seq<Word>) {
    |payload| % 2 == 0 && values <= Words(payload)
  }

  /** That is so if it is even, long enough, and has every value in its place, the high byte first. */
  lemma EchoesIff(payload: seq<Octet>, values: seq<Word>)
    ensures Echoes(payload, values) <==>
              && |payload| % 2 == 0 && |payload| >= 2 * |values|
              && forall i :: 0 <= i < |values| ==> (payload[2 * i] as int) * 256 + payload[2 * i + 1] == values[i]
  {
    var words := Words(payload);
    if |payload| >= 2 * |values| {
      forall i | 0 <= i < |values|
        ensures words[i] == values[i] <==> (payload[2 * i] as int) * 256 + payload[2 * i + 1] == values[i]
      {
      }
      if Echoes(payload, values) {
        assert forall i :: 0 <= i < |values| ==> words[i] == values[i];
      }
      assert values <= words <==> forall i :: 0 <= i < |values| ==> words[i] == values[i];
    }
  }

  method BlockPayload(values: seq<Word>) returns (payload: seq<Octet>)
    ensures payload == Bytes(values)
    ensures forall i :: 0 <= i < |values| ==> payload[2 * i] == values[i] / 256 && payload[2 * i + 1] == values[i] % 256
  {
    var bytes := new Octet[2 * |values|];
    for index := 0 to |values|
      invariant forall k :: 0 <= k < 2 * index ==> bytes[k] == Bytes(values)[k]
    {
      bytes[2 * index] := values[index] / 0x100;
      bytes[2 * index + 1] := values[index] % 0x100;
    }
    return bytes[..];
  }

  /** A request that puts the values at an address and changes nothing else. */
  ghost predicate Stores(request: Request, address: Word, values: seq<Word>) {
    forall memory: Memory, a: Word ::
      Applied(memory, request)(a) == if address <= a < address + |values| then values[a - address] else memory(a)
  }

  lemma MultipleStores(address: Word, values: seq<Word>, payload: seq<Octet>)
    requires Writable(values) && Words(payload) == values
    ensures Stores(Multiple(address, |values|, payload), address, values)
  {
    forall memory: Memory, a: Word
      ensures Applied(memory, Multiple(address, |values|, payload))(a)
           == if address <= a < address + |values| then values[a - address] else memory(a) {
    }
  }

  method BlockRequest(address: Word, values: seq<Word>) returns (request: Request)
    requires Writable(values)
    ensures Stores(request, address, values)
    ensures |values| == 1 ==> request == Single(address, values[0])
    ensures |values| > 1 ==>
              && request.Multiple? && request.address == address && request.count == |values|
              && |request.payload| == 2 * |values|
              && forall i :: 0 <= i < |values| ==>
                               && request.payload[2 * i] == values[i] / 256
                               && request.payload[2 * i + 1] == values[i] % 256
  {
    if |values| == 1 {
      request := Single(address, values[0]);
      return;
    }
    var payload := BlockPayload(values);
    WordsOfBytes(values);
    request := Multiple(address, |values|, payload);
    MultipleStores(address, values, payload);
  }

  method Compare(readback: seq<Word>, values: seq<Word>) returns (same: bool)
    requires |readback| >= |values|
    ensures same <==> values <= readback
  {
    for index := 0 to |values|
      invariant forall k :: 0 <= k < index ==> values[k] == readback[k]
    {
      if readback[index] != values[index] {
        return false;
      }
    }
    same := true;
  }

  method WriteHoldingWords(address: Word, values: seq<Word>, io: IO) returns (sent: Option<Request>, ok: bool)
    ensures sent.Some? <==> Writable(values) && io.opens
    ensures sent.Some? ==> Stores(sent.value, address, values)
    ensures ok <==> sent.Some? && io.acknowledged && io.readback.Some? && Echoes(io.readback.value, values)
  {
    if |values| == 0 || |values| > 0xFFFF || !io.opens {
      return None, false;
    }
    var request := BlockRequest(address, values);
    sent := Some(request);
    if !io.acknowledged || io.readback.None? {
      return sent, false;
    }
    var readback := WordsFromBytes(io.readback.value, |values|);
    if readback.Err? {
      return sent, false;
    }
    ok := Compare(readback.value, values);
  }

  /** A call that reports success found its values on the device, whatever the write itself did: the device's words at
      the time of the read after it are the written ones. */
  lemma SuccessIsOnDevice(memory: Memory, address: Word, values: seq<Word>, payload: seq<Octet>)
    requires Writable(values) && address + |values| <= 0x1_0000
    requires payload == Bytes(ReadWords(memory, address, |values|))
    ensures Echoes(payload, values) <==> ReadWords(memory, address, |values|) == values
  {
    WordsOfBytes(ReadWords(memory, address, |values|));
  }

  method ReadHoldingWords(count: Word, opens: bool, answer: Option<seq<Octet>>) returns (r: Result<seq<Word>>)
    ensures r.Ok? <==> count > 0 && opens && answer.Some? && |answer.value| % 2 == 0 && |answer.value| >= 2 * count
    ensures r.Ok? ==> r.value == Words(answer.value)[..count]
    ensures r.Ok? ==>
              forall i :: 0 <= i < count ==> r.value[i] == (answer.value[2 * i] as int) * 256 + answer.value[2 * i + 1]
  {
    if count == 0 || !opens || answer.None? {
      return Err;
    }
    var words := WordsFromBytes(answer.value, count);
    if words.Err? {
      return Err;
    }
    return Ok(words.value[..count]);
  }
}
