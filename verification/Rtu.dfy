/** Modbus RTU frames: the CRC-16 of section 6.2.2 of the MODBUS over Serial Line guide, framing, and reassembly of a
    response from the pieces in which a TCP stream delivers it. */
module Rtu {
  import opened Common

  type byte = bv8

  const MIN_FRAME := 4
  const MAX_FRAME := 256
  const EXCEPTION_FRAME := 5

  // ----- CRC -----

  /** One shift of the CRC register. */
  function CrcBit(crc: bv16): bv16 {
    if crc & 1 == 0 then crc >> 1 else (crc >> 1) ^ 0xA001
  }

  function CrcShifts(crc: bv16, n: nat): bv16 {
    if n == 0 then crc else CrcBit(CrcShifts(crc, n - 1))
  }

  function CrcByte(crc: bv16, b: byte): bv16 {
    CrcShifts(crc ^ (b as bv16), 8)
  }

  function CrcFrom(crc: bv16, data: seq<byte>): bv16 {
    if data == [] then crc else CrcByte(CrcFrom(crc, data[..|data| - 1]), data[|data| - 1])
  }

  function Crc(data: seq<byte>): bv16 {
    CrcFrom(0xFFFF, data)
  }

  /** The register shifted along a chain of values. */
  lemma {:induction false} ShiftChain(chain: seq<bv16>, n: nat)
    requires n < |chain| && forall i :: 0 <= i < n ==> CrcBit(chain[i]) == chain[i + 1]
    ensures CrcShifts(chain[0], n) == chain[n]
  {
    if n > 0 {
      ShiftChain(chain, n - 1);
      assert CrcBit(chain[n - 1]) == chain[n - 1 + 1];
    }
  }

  /** The worked example of the serial line guide: a frame of 02 07 has the check 12 41, its low byte sent first. */
  lemma GuideExample()
    ensures Crc([2, 7]) == 0x1241 && Low(0x1241) == 0x41 && High(0x1241) == 0x12
  {
    ShiftChain([0xFFFD, 0xDFFF, 0xCFFE, 0x67FF, 0x93FE, 0x49FF, 0x84FE, 0x427F, 0x813E], 8);
    ShiftChain([0x8139, 0xE09D, 0xD04F, 0xC826, 0x6413, 0x9208, 0x4904, 0x2482, 0x1241], 8);
    var one: seq<byte> := [2];
    var both: seq<byte> := [2, 7];
    assert both[..1] == one && one[..0] == [];
    assert CrcByte(0xFFFF, 2) == 0x813E && CrcByte(0x813E, 7) == 0x1241;
    assert CrcFrom(0xFFFF, one) == 0x813E;
  }

  method CalculateCRC(data: seq<byte>) returns (crc: bv16)
    ensures crc == Crc(data)
  {
    crc := 0xFFFF;
    for n := 0 to |data|
      invariant crc == Crc(data[..n])
    {
      crc := crc ^ (data[n] as bv16);
      ghost var start := crc;
      for k := 0 to 8
        invariant crc == CrcShifts(start, k)
      {
        if crc & 1 == 0 {
          crc := crc >> 1;
          continue;
        }
        crc := (crc >> 1) ^ 0xA001;
      }
      assert data[..n + 1][..n] == data[..n];
    }
    assert data[..|data|] == data;
  }

  /** The low and high byte of a word, and the word they make. */
  function Low(w: bv16): byte { (w & 0xFF) as byte }
  function High(w: bv16): byte { (w >> 8) as byte }
  function Join(low: byte, high: byte): bv16 { (low as bv16) | ((high as bv16) << 8) }

  lemma JoinParts(w: bv16)
    ensures Join(Low(w), High(w)) == w
  {
  }

  // ----- frames -----

  /** A protocol data unit: function code and data. */
  datatype Pdu = Pdu(code: byte, data: seq<byte>)

  function FrameCrc(frame: seq<byte>): bv16
    requires |frame| >= 2
  {
    Join(frame[|frame| - 2], frame[|frame| - 1])
  }

  function Decode(frame: seq<byte>): Result<Pdu> {
    if |frame| < MIN_FRAME || FrameCrc(frame) != Crc(frame[..|frame| - 2]) then Err
    else Ok(Pdu(frame[1], frame[2..|frame| - 2]))
  }

  /** So a frame of 02 07 41 12 is accepted, and with the last two bytes the other way round it is not. */
  lemma GuideFrame()
    ensures Decode([2, 7, 0x41, 0x12]) == Ok(Pdu(7, [])) && Decode([2, 7, 0x12, 0x41]) == Err
  {
    GuideExample();
    var sent: seq<byte>, swapped: seq<byte> := [2, 7, 0x41, 0x12], [2, 7, 0x12, 0x41];
    assert sent[..2] == [2, 7] && swapped[..2] == [2, 7] && sent[2..2] == [];
    assert Join(0x41, 0x12) == 0x1241 && Join(0x12, 0x41) != 0x1241;
  }

  /** Fills in the last two bytes of a frame. */
  method AppendCRC(frame: array<byte>)
    requires frame.Length >= 2
    modifies frame
    ensures frame[..frame.Length - 2] == old(frame[..frame.Length - 2])
    ensures FrameCrc(frame[..]) == Crc(frame[..frame.Length - 2])
    ensures frame[frame.Length - 2] == (Crc(frame[..frame.Length - 2]) & 0xFF) as byte
    ensures frame[frame.Length - 1] == (Crc(frame[..frame.Length - 2]) >> 8) as byte
  {
    var n := frame.Length;
    var crc := CalculateCRC(frame[..n - 2]);
    JoinParts(crc);
    frame[n - 2] := Low(crc);
    frame[n - 1] := High(crc);
    assert frame[..n - 2] == old(frame[..n - 2]);
  }

  method Encode(slave: byte, pdu: Pdu) returns (r: Result<seq<byte>>)
    ensures r.Ok? <==> |pdu.data| + 4 <= MAX_FRAME
    ensures r.Ok? ==>
              && |r.value| == |pdu.data| + 4
              && r.value[..|r.value| - 2] == [slave, pdu.code] + pdu.data
              && r.value[|r.value| - 2] == (Crc([slave, pdu.code] + pdu.data) & 0xFF) as byte
              && r.value[|r.value| - 1] == (Crc([slave, pdu.code] + pdu.data) >> 8) as byte
              && Decode(r.value) == Ok(pdu)
  {
    var n := |pdu.data| + 4;
    if n > MAX_FRAME {
      return Err;
    }
    var frame := new byte[n];
    frame[0] := slave;
    frame[1] := pdu.code;
    for i := 0 to |pdu.data|
      invariant frame[..2 + i] == [slave, pdu.code] + pdu.data[..i]
    {
      frame[2 + i] := pdu.data[i];
      assert frame[..3 + i] == frame[..2 + i] + [pdu.data[i]];
    }
    assert pdu.data[..|pdu.data|] == pdu.data;
    AppendCRC(frame);
    assert frame[..][..n - 2] == frame[..n - 2];
    assert frame[2..n - 2] == frame[..n - 2][2..];
    r := Ok(frame[..]);
  }
}
