/** How far apart two frames are that the decoder accepts. */
module CrcDistance {
  import opened Common
  import opened Rtu
  import opened LinearRegister
  import opened CrcDetection
  import CrcPeriod

  /** What differs between an accepted frame and another of its length decides whether that is accepted too. */
  lemma AcceptedIffUnnoticed(f: seq<byte>, g: seq<byte>)
    requires Decode(f).Ok? && |g| == |f|
    ensures Decode(g).Ok? <==> Feed(CRC16, 0, Difference(FrameBits(f), FrameBits(g))) == 0
  {
    AcceptedMeansZero(f);
    AcceptedMeansZero(g);
    CrcIsLinear();
    FeedLinear(CRC16, 0xFFFF, FrameBits(f), 0xFFFF, FrameBits(g));
    FromZero(Feed(CRC16, 0xFFFF, FrameBits(f)), Feed(CRC16, 0xFFFF, FrameBits(g)));
  }

  lemma FromZero(p: bv16, q: bv16)
    ensures Xor(0xFFFF, 0xFFFF) == 0 && (p == 0 ==> Xor(p, q) == q)
  {
  }

  /** Two flipped bits in an accepted frame are detected exactly when their distance is no multiple of 32767. */
  lemma TwoFlipsDetectedIff(f: seq<byte>, g: seq<byte>, i: nat, d: nat)
    requires Decode(f).Ok? && |g| == |f|
    requires OnesAt(Difference(FrameBits(f), FrameBits(g)), i, d)
    ensures Decode(g) == Err <==> d % 32767 != 0
  {
    AcceptedIffUnnoticed(f, g);
    CrcIsLinear();
    TwoOnesUnnoticedIff(CRC16, Difference(FrameBits(f), FrameBits(g)), i, d);
    ShiftsAreCrcShifts(1, d);
    CrcPeriod.LowBitReturnsIff(d);
  }

  /** In how many bits two frames of one length differ. */
  function Distance(f: seq<byte>, g: seq<byte>): nat
    requires |f| == |g|
  {
    Ones(Difference(FrameBits(f), FrameBits(g)))
  }

  lemma NoFlips(f: seq<byte>, g: seq<byte>)
    requires |f| == |g| && Distance(f, g) == 0
    ensures f == g
  {
    var bits, others := FrameBits(f), FrameBits(g);
    NoOnes(Difference(bits, others));
    assert forall i :: 0 <= i < |bits| ==> Difference(bits, others)[i] == (bits[i] != others[i]);
    FrameBitsInjective(f, g);
  }

  lemma TwoFlips(f: seq<byte>, g: seq<byte>)
    requires Decode(f).Ok? && |f| == |g| <= 4095 && Distance(f, g) == 2
    ensures Decode(g) == Err
  {
    var i, d := TwoOnesShape(Difference(FrameBits(f), FrameBits(g)));
    TwoFlipsDetectedIff(f, g, i, d);
  }

  lemma OddFlips(f: seq<byte>, g: seq<byte>)
    requires Decode(f).Ok? && |f| == |g| && Distance(f, g) % 2 == 1
    ensures Decode(g) == Err
  {
    OnesParity(Difference(FrameBits(f), FrameBits(g)));
    OddErrorsDetected(f, g);
  }

  /** Any two different frames of one length, up to 4095 bytes, that are both accepted differ in at least four bits:
      one, two or three flipped bits are always detected. */
  lemma DistanceFour(f: seq<byte>, g: seq<byte>)
    requires Decode(f).Ok? && Decode(g).Ok?
    requires |f| == |g| <= 4095 && f != g
    ensures Distance(f, g) >= 4
  {
    var n := Distance(f, g);
    if n == 0 {
      NoFlips(f, g);
    } else if n == 2 {
      TwoFlips(f, g);
    } else if n % 2 == 1 {
      OddFlips(f, g);
    }
  }
}
