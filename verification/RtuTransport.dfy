/** Sending an RTU request over TCP: how long a response to expect and how to put it together from the pieces in which
    the stream delivers it. */
module RtuTransport {
  import opened Common
  import Rtu

  type byte = Rtu.byte

  const READ_COILS: byte := 1
  const READ_DISCRETE_INPUTS: byte := 2
  const READ_HOLDING_REGISTERS: byte := 3
  const READ_INPUT_REGISTERS: byte := 4
  const WRITE_SINGLE_COIL: byte := 5
  const WRITE_SINGLE_REGISTER: byte := 6
  const WRITE_MULTIPLE_COILS: byte := 15
  const WRITE_MULTIPLE_REGISTERS: byte := 16
  const MASK_WRITE_REGISTER: byte := 22
  const READ_WRITE_MULTIPLE_REGISTERS: byte := 23

  predicate ReadsBits(code: byte) {
    code == READ_DISCRETE_INPUTS || code == READ_COILS
  }

  predicate ReadsWords(code: byte) {
    code == READ_INPUT_REGISTERS || code == READ_HOLDING_REGISTERS || code == READ_WRITE_MULTIPLE_REGISTERS
  }

  predicate EchoesRequest(code: byte) {
    || code == WRITE_SINGLE_COIL || code == WRITE_MULTIPLE_COILS
    || code == WRITE_SINGLE_REGISTER || code == WRITE_MULTIPLE_REGISTERS
  }

  /** A request has a function code, and one that reads has an address and a count behind it. */
  predicate WellFormed(request: seq<byte>) {
    |request| >= 2 && (ReadsBits(request[1]) || ReadsWords(request[1]) ==> |request| >= 6)
  }

  function Count(request: seq<byte>): Word
    requires |request| >= 6
  {
    (request[4] as int) * 256 + request[5] as int
  }

  /** The data of a normal response, as the application protocol lays it out: a byte count and one bit per coil, rounded
      up to whole bytes, or two bytes per register; for a write, the address and the value or count. */
  function ResponseData(code: byte, count: Word): nat {
    if ReadsBits(code) then 1 + (count + 7) / 8
    else if ReadsWords(code) then 1 + 2 * count
    else if EchoesRequest(code) then 4
    else if code == MASK_WRITE_REGISTER then 6
    else 0
  }

  function ResponseLength(request: seq<byte>): (length: nat)
    requires WellFormed(request)
    ensures length >= Rtu.MIN_FRAME
  {
    Rtu.MIN_FRAME + ResponseData(request[1], if |request| >= 6 then Count(request) else 0)
  }

  method RtuResponseLength(request: seq<byte>) returns (length: nat)
    requires WellFormed(request)
    ensures length == ResponseLength(request)
    ensures request[1] in {1, 2} ==>
              8 * (length - 5) >= (request[4] as int) * 256 + request[5] as int > 8 * (length - 6)
    ensures request[1] in {3, 4, 23} ==> length == 5 + 2 * ((request[4] as int) * 256 + request[5] as int)
    ensures request[1] in {5, 6, 15, 16} ==> length == 8
    ensures request[1] == 22 ==> length == 10
    ensures request[1] !in {1, 2, 3, 4, 5, 6, 15, 16, 22, 23} ==> length == 4
  {
    length := Rtu.MIN_FRAME;
    if ReadsBits(request[1]) {
      var count := Count(request);
      length := length + 1 + count / 8;
      if count % 8 != 0 {
        length := length + 1;
      }
    } else if ReadsWords(request[1]) {
      var count: int := Count(request);
      length := length + 1 + count * 2;
    } else if EchoesRequest(request[1]) {
      length := length + 4;
    } else if request[1] == MASK_WRITE_REGISTER {
      length := length + 6;
    }
  }

  /** The counts that sections 6.1 to 6.4 and 6.17 of the application protocol allow. */
  predicate LegalCount(code: byte, count: Word) {
    (ReadsBits(code) ==> 1 <= count <= 2000) && (ReadsWords(code) ==> 1 <= count <= 125)
  }

  lemma LegalResponseFits(request: seq<byte>)
    requires WellFormed(request)
    requires |request| >= 6 ==> LegalCount(request[1], Count(request))
    ensures Rtu.EXCEPTION_FRAME <= Rtu.MAX_FRAME && ResponseLength(request) <= 255
  {
  }

  /** A response is longer than the buffer exactly when more than 125 registers or 2008 coils are asked for. */
  lemma OverrunIff(request: seq<byte>)
    requires WellFormed(request)
    ensures ResponseLength(request) > Rtu.MAX_FRAME
            <==> |request| >= 6 && ((ReadsWords(request[1]) && Count(request) > 125)
                                    || (ReadsBits(request[1]) && Count(request) > 2008))
  {
  }

  // ----- streams -----

  /** The bytes that a sequence of chunks carries. */
  function Flat(chunks: seq<seq<byte>>): seq<byte> {
    if chunks == [] then [] else chunks[0] + Flat(chunks[1..])
  }

  lemma {:induction false} FlatAppend(a: seq<seq<byte>>, b: seq<seq<byte>>)
    ensures Flat(a + b) == Flat(a) + Flat(b)
    decreases |a|
  {
    if a == [] {
      assert a + b == b;
    } else {
      assert (a + b)[1..] == a[1..] + b;
      FlatAppend(a[1..], b);
    }
  }

  /** How many bytes of a stream make up the response to a request, if what it starts with is one. */
  function Needed(request: seq<byte>, stream: seq<byte>): Option<nat>
    requires WellFormed(request)
  {
    if |stream| < Rtu.MIN_FRAME then None
    else if stream[1] == request[1] then Some(ResponseLength(request))
    else if stream[1] == request[1] | 0x80 then Some(Rtu.EXCEPTION_FRAME)
    else None
  }

  /** `OutOfRange` is a slice past the end of the 256-byte buffer, which stops the goroutine. */
  datatype Reply = Returned(frame: seq<byte>) | Failed | OutOfRange

  /** What a request makes of the stream that answers it: whether there is a reply, and of which kind, is told by the
      bytes alone and not by the pieces in which they come; a reply is the beginning of the stream, with `rest` left. */
  predicate Answers(reply: Reply, request: seq<byte>, stream: seq<byte>, rest: seq<byte>)
    requires WellFormed(request)
  {
    var needed := Needed(request, stream);
    && (reply.Returned? <==> needed.Some? && needed.value <= Rtu.MAX_FRAME && needed.value <= |stream|)
    && (reply.OutOfRange? <==> needed.Some? && needed.value > Rtu.MAX_FRAME)
    && (reply.Returned? ==>
          && stream == reply.frame + rest
          && needed.value <= |reply.frame| <= Rtu.MAX_FRAME)
  }

  /** A stream that carries one response and no more is returned whole and leaves nothing behind, so that the next
      request starts in step. */
  lemma OneResponseReturned(reply: Reply, request: seq<byte>, stream: seq<byte>, rest: seq<byte>)
    requires WellFormed(request) && Answers(reply, request, stream, rest)
    requires Needed(request, stream) == Some(|stream|) && |stream| <= Rtu.MAX_FRAME
    ensures reply == Returned(stream) && rest == []
  {
    assert |reply.frame| + |rest| == |stream|;
    assert reply.frame == stream[..|reply.frame|];
  }

  /** Such a request, for 126 holding registers, and the beginning of a normal answer to it: no matter how the answer
      arrives, the slice of the buffer that should take it is out of range. */
  lemma OverrunRequest() returns (request: seq<byte>, stream: seq<byte>)
    ensures WellFormed(request) && ReadsWords(request[1]) && Count(request) == 126
    ensures forall reply, rest :: Answers(reply, request, stream, rest) ==> reply.OutOfRange?
  {
    request, stream := [1, READ_HOLDING_REGISTERS, 0, 0, 0, 126], [1, READ_HOLDING_REGISTERS, 252, 0];
    OverrunIff(request);
    assert Needed(request, stream) == Some(ResponseLength(request));
  }

  /** The data of the normal response to a request, field by field: to a read a byte count and that many bytes, with a
      bit per coil or two bytes per register; to a write the address with the value or the count, which for one register
      or coil and for a mask is all that the request holds between its function code and its CRC. */
  predicate Responds(request: seq<byte>, data: seq<byte>)
    requires WellFormed(request)
  {
    var code := request[1];
    if code in {1, 2} then
      && |data| >= 1 && data[0] as int == |data| - 1
      && 8 * (|data| - 1) >= (request[4] as int) * 256 + request[5] as int > 8 * (|data| - 2)
    else if code in {3, 4, 23} then
      && |data| >= 1 && data[0] as int == |data| - 1
      && |data| - 1 == 2 * ((request[4] as int) * 256 + request[5] as int)
    else if code in {5, 6} then |request| == 8 && data == request[2..6]
    else if code in {15, 16} then |request| >= 6 && data == request[2..6]
    else if code == 22 then |request| == 10 && data == request[2..8]
    else false
  }

  /** The PDUs with which a conforming device answers: the normal response, or one byte that says what went wrong. */
  predicate Conforms(request: seq<byte>, pdu: Rtu.Pdu)
    requires WellFormed(request)
  {
    || (pdu.code == request[1] && Responds(request, pdu.data))
    || (pdu.code != request[1] && pdu.code == request[1] | 0x80 && |pdu.data| == 1)
  }

  /** The first read expects just as much as the fields of a normal response take up. */
  lemma RespondsInFull(request: seq<byte>, data: seq<byte>)
    requires WellFormed(request) && Responds(request, data)
    ensures |data| + 4 == ResponseLength(request) <= 260
  {
  }

  /** Whatever a conforming device answers arrives: from the pieces of its frame the frame, and from that the PDU.  Any
      less than the whole frame is a failure. */
  lemma ExchangeRecoversPdu(request: seq<byte>, pdu: Rtu.Pdu, frame: seq<byte>,
                            stream: seq<byte>, reply: Reply, rest: seq<byte>)
    requires WellFormed(request) && Conforms(request, pdu)
    requires |frame| <= 256 && Rtu.Decode(frame) == Ok(pdu) && stream <= frame
    requires Answers(reply, request, stream, rest)
    ensures stream == frame ==> reply == Returned(frame) && rest == []
    ensures stream != frame ==> reply == Failed
  {
    assert |stream| < |frame| <==> stream != frame;
    if pdu.code == request[1] {
      RespondsInFull(request, pdu.data);
    }
    if stream == frame {
      OneResponseReturned(reply, request, frame, rest);
    }
  }

  /** A device that accepts the write of one register or coil sends the request back.  Exactly the whole echo is a
      reply, and it is returned as it came. */
  lemma EchoReturned(request: seq<byte>, stream: seq<byte>, reply: Reply, rest: seq<byte>)
    requires |request| == 8 && request[1] in {5, 6} && stream <= request
    requires Answers(reply, request, stream, rest)
    ensures stream == request ==> reply == Returned(request) && rest == []
    ensures stream != request ==> reply == Failed
  {
    assert |stream| < 8 <==> stream != request;
    if stream == request {
      OneResponseReturned(reply, request, stream, rest);
    }
  }

  /** Fewer than four bytes, and bytes of another function, are a failure. */
  lemma StrangersRefused(request: seq<byte>, stream: seq<byte>, reply: Reply, rest: seq<byte>)
    requires WellFormed(request) && Answers(reply, request, stream, rest)
    requires |stream| < 4 || (stream[1] != request[1] && stream[1] != request[1] | 0x80)
    ensures reply == Failed
  {
  }

  class Transport {
    var connected: bool
    /** What the peer has sent on the connection and nobody has read, in the pieces in which reads will deliver it. */
    var chunks: seq<seq<byte>>

    constructor ()
      ensures !connected && chunks == []
    {
      connected := false;
      chunks := [];
    }

    method Close()
      modifies this
      ensures !connected && chunks == []
    {
      connected := false;
      chunks := [];
    }

    /** One read: at most `room` bytes of the next piece; nothing left to deliver is an error. */
    method Read(room: nat) returns (piece: seq<byte>, ok: bool)
      modifies this`chunks
      ensures ok <==> old(chunks) != []
      ensures |piece| <= room && Flat(old(chunks)) == piece + Flat(chunks)
      ensures ok && room > 0 ==> |Flat(chunks)| + |chunks| < |Flat(old(chunks))| + |old(chunks)|
      ensures !ok ==> piece == [] && chunks == []
    {
      if chunks == [] {
        return [], false;
      }
      ok := true;
      ghost var all := Flat(chunks);
      var next := chunks[0];
      if |next| <= room {
        piece := next;
        chunks := chunks[1..];
      } else {
        piece := next[..room];
        assert next == piece + next[room..];
        ghost var rest := chunks[1..];
        chunks := [next[room..]] + chunks[1..];
        assert chunks[1..] == rest;
        assert all == piece + (next[room..] + Flat(rest));
      }
    }

    static method Copy(buffer: array<byte>, at: nat, piece: seq<byte>)
      requires at + |piece| <= buffer.Length
      modifies buffer
      ensures buffer[..at] == old(buffer[..at])
      ensures buffer[at..at + |piece|] == piece
    {
      for i := 0 to |piece|
        invariant buffer[..at] == old(buffer[..at])
        invariant buffer[at..at + i] == piece[..i]
      {
        buffer[at + i] := piece[i];
      }
      assert piece[..|piece|] == piece;
    }

    /** One read into buffer[at..to].  What is in the buffer, followed by what is still to come, never changes. */
    method ReadInto(buffer: array<byte>, at: nat, to: nat) returns (n: nat, ok: bool)
      requires at <= to <= buffer.Length
      modifies this`chunks, buffer
      ensures at <= n <= to
      ensures buffer[..n] + Flat(chunks) == old(buffer[..at]) + Flat(old(chunks))
      ensures !ok ==> Flat(chunks) == []
      ensures ok && at < to ==> |Flat(chunks)| + |chunks| < |Flat(old(chunks))| + |old(chunks)|
    {
      ghost var before := buffer[..at];
      var piece;
      piece, ok := Read(to - at);
      n := at + |piece|;
      Copy(buffer, at, piece);
      assert buffer[..n] == before + piece;
    }

    /** Reads into buffer[from..to] until at least `least` bytes are there; the bytes then end at n. */
    method ReadAtLeast(buffer: array<byte>, from: nat, to: nat, least: nat) returns (n: nat, ok: bool)
      requires from + least <= to <= buffer.Length
      modifies this`chunks, buffer
      ensures n <= to && (ok <==> n >= from + least)
      ensures buffer[..n] + Flat(chunks) == old(buffer[..from]) + Flat(old(chunks))
      ensures !ok ==> Flat(chunks) == []
    {
      n := from;
      ok := true;
      while n < from + least && ok
        invariant n <= to
        invariant buffer[..n] + Flat(chunks) == old(buffer[..from]) + Flat(old(chunks))
        invariant !ok ==> Flat(chunks) == []
        decreases ok, |Flat(chunks)| + |chunks|
      {
        n, ok := ReadInto(buffer, n, to);
      }
      ok := n >= from + least;
    }

    /** Reads what is missing of a response of `size` bytes. */
    method ReadRest(buffer: array<byte>, from: nat, size: nat) returns (n: nat, ok: bool)
      requires from <= buffer.Length && size <= buffer.Length
      modifies this`chunks, buffer
      ensures n <= buffer.Length
      ensures buffer[..n] + Flat(chunks) == old(buffer[..from]) + Flat(old(chunks))
      ensures ok <==> from + |Flat(old(chunks))| >= size
      ensures ok ==> n >= size
    {
      n := from;
      ok := true;
      if size > n {
        ghost var have := |buffer[..from]| + |Flat(chunks)|;
        n, ok := ReadAtLeast(buffer, n, size, size - n);
        assert |buffer[..n] + Flat(chunks)| == have;
      }
    }

    /** What `Send` does once the request is out. */
    method Receive(request: seq<byte>) returns (reply: Reply)
      requires WellFormed(request) && connected
      modifies this
      ensures connected || chunks == []
      ensures reply == Failed <==> !connected
      ensures Answers(reply, request, Flat(old(chunks)), Flat(chunks))
    {
      ghost var stream := Flat(chunks);
      var responseLen := RtuResponseLength(request);
      var data := new byte[Rtu.MAX_FRAME];
      var n, ok := ReadAtLeast(data, 0, Rtu.MAX_FRAME, Rtu.MIN_FRAME);
      assert stream == data[..n] + Flat(chunks);
      if !ok {
        Close();
        return Failed;
      }
      assert stream[1] == data[1];
      var size;
      if data[1] == request[1] {
        size := responseLen;
        if size > Rtu.MAX_FRAME {
          return OutOfRange;
        }
      } else if data[1] == request[1] | 0x80 {
        size := Rtu.EXCEPTION_FRAME;
      } else {
        Close();
        return Failed;
      }
      assert Needed(request, stream) == Some(size);
      n, ok := ReadRest(data, n, size);
      if !ok {
        Close();
        return Failed;
      }
      return Returned(data[..n]);
    }

    /** `dials`, `timed` and `writes` say whether connecting, setting the deadline and writing succeed, `answer` what
        the peer then sends.  Only a deadline that cannot be set leaves a failed connection as it was. */
    method Send(request: seq<byte>, dials: bool, timed: bool, writes: bool, answer: seq<seq<byte>>)
      returns (reply: Reply)
      requires WellFormed(request)
      requires !connected ==> chunks == []
      modifies this
      ensures !connected ==> chunks == []
      ensures !(old(connected) || dials) ==> reply == Failed && !connected
      ensures (old(connected) || dials) && !timed ==> reply == Failed && connected && chunks == old(chunks)
      ensures (old(connected) || dials) && timed && !writes ==> reply == Failed && !connected
      ensures (old(connected) || dials) && timed && writes ==>
                && (reply == Failed <==> !connected)
                && Answers(reply, request, Flat(old(chunks)) + Flat(answer), Flat(chunks))
    {
      if !connected {
        if !dials {
          return Failed;
        }
        connected := true;
      }
      if !timed {
        return Failed;
      }
      if !writes {
        Close();
        return Failed;
      }
      FlatAppend(chunks, answer);
      chunks := chunks + answer;
      reply := Receive(request);
    }
  }
}
