/** What the frame check of the RTU codec detects, for frames of any length.

    The CRC register is followed bit by bit, in the order in which the bits of a frame are sent. */
module CrcDetection {
  import opened Common
  import opened Rtu
  import opened LinearRegister

  function Xor(a: bv16, b: bv16): bv16 { a ^ b }

  function LowBit(w: bv16): bool { w & 1 == 1 }

  function Halve(w: bv16): bv16 { w >> 1 }

  /** The CRC-16 register as a linear register on words. */
  const CRC16: Register<bv16> := Register(0, 1, Xor, CrcBit, LowBit, Halve)

  // ----- the laws of the register -----

  lemma XorLaws(a: bv16, b: bv16, c: bv16)
    ensures a ^ b == b ^ a && (a ^ b) ^ c == a ^ (b ^ c) && a ^ 0 == a && a ^ a == 0
  {
  }

  lemma XorShift(a: bv16, b: bv16)
    ensures (a ^ b) >> 1 == (a >> 1) ^ (b >> 1)
    ensures (a ^ b) & 1 == (a & 1) ^ (b & 1)
    ensures a & 1 == 0 || a & 1 == 1
  {
  }

  lemma XorTwice(a: bv16, b: bv16, k: bv16)
    ensures (a ^ k) ^ b == (a ^ b) ^ k && (a ^ k) ^ (b ^ k) == a ^ b && a ^ (b ^ k) == (a ^ b) ^ k
  {
  }

  lemma CrcBitLinear(a: bv16, b: bv16)
    ensures CrcBit(a ^ b) == CrcBit(a) ^ CrcBit(b)
  {
    XorShift(a, b);
    XorShift(b, a);
    XorTwice(a >> 1, b >> 1, 0xA001);
  }

  lemma CrcBitLosesNothing(a: bv16)
    requires CrcBit(a) == 0
    ensures a == 0
  {
  }

  lemma CrcBitHalves(w: bv16)
    ensures CrcBit(w) == CrcBit(if w & 1 == 1 then 1 else 0) ^ (w >> 1)
  {
    XorShift(w, w);
    assert CrcBit(1) == 0xA001 && CrcBit(0) == 0;
  }

  lemma LawOfCancelling(a: bv16)
    ensures Cancels(CRC16, a)
  {
    XorLaws(a, a, a);
  }

  lemma LawOfLosingNothing(a: bv16)
    ensures LosesNothing(CRC16, a)
  {
    if CrcBit(a) == 0 {
      CrcBitLosesNothing(a);
    }
  }

  lemma LawOfHalving(a: bv16)
    ensures Halves(CRC16, a)
  {
    CrcBitHalves(a);
  }

  lemma LawsOfMixing(a: bv16, b: bv16, c: bv16)
    ensures Commutes(CRC16, a, b) && Associates(CRC16, a, b, c)
  {
    XorLaws(a, b, c);
  }

  lemma CrcBitOfXor(a: bv16, b: bv16, x: bv16, p: bv16, q: bv16)
    requires x == a ^ b && p == CrcBit(a) && q == CrcBit(b)
    ensures CrcBit(x) == p ^ q
  {
    CrcBitLinear(a, b);
  }

  lemma XorIs(a: bv16, b: bv16)
    ensures Xor(a, b) == a ^ b
  {
  }

  lemma LawOfShifting(a: bv16, b: bv16)
    ensures ShiftsApart(CRC16, a, b)
  {
    XorIs(a, b);
    XorIs(CrcBit(a), CrcBit(b));
    CrcBitOfXor(a, b, Xor(a, b), CrcBit(a), CrcBit(b));
  }

  lemma CrcIsLinear()
    ensures Linear(CRC16)
  {
    forall a, b ensures Commutes(CRC16, a, b) { LawsOfMixing(a, b, 0); }
    forall a, b, c ensures Associates(CRC16, a, b, c) { LawsOfMixing(a, b, c); }
    forall a ensures Cancels(CRC16, a) { LawOfCancelling(a); }
    forall a, b ensures ShiftsApart(CRC16, a, b) { LawOfShifting(a, b); }
    forall a ensures LosesNothing(CRC16, a) { LawOfLosingNothing(a); }
    forall a ensures Halves(CRC16, a) { LawOfHalving(a); }
  }

  lemma HalvesTell(v: bv16, w: bv16)
    requires v >> 1 == w >> 1 && (v & 1 == 1) == (w & 1 == 1)
    ensures v == w
  {
  }

  lemma LawOfParts(a: bv16, b: bv16)
    ensures PartsTell(CRC16, a, b)
  {
    if a >> 1 == b >> 1 && (a & 1 == 1) == (b & 1 == 1) {
      HalvesTell(a, b);
    }
  }

  lemma XorParts(a: bv16, b: bv16)
    ensures LowBit(Xor(a, b)) == (LowBit(a) != LowBit(b))
    ensures Halve(Xor(a, b)) == Xor(Halve(a), Halve(b))
  {
  }

  lemma LawOfSplitting(a: bv16, b: bv16)
    ensures Splits(CRC16, a, b)
  {
    XorParts(a, b);
  }

  lemma CrcHasWords()
    ensures Words(CRC16)
  {
    forall a, b ensures Splits(CRC16, a, b) { LawOfSplitting(a, b); }
    forall a, b ensures PartsTell(CRC16, a, b) { LawOfParts(a, b); }
  }

  /** Halving n times is a shift by n. */
  lemma HalvedTwice(w: bv16)
    ensures (w >> 1) >> 1 == w >> 2 && (w >> 2) >> 2 == w >> 4 && (w >> 4) >> 4 == w >> 8
    ensures (w >> 8) >> 8 == 0 && (w >> 8) >> 4 == w >> 12 && (w >> 12) >> 2 == w >> 14 && (w >> 14) >> 1 == w >> 15
  {
  }

  lemma FitsTwo(w: bv16, n: nat)
    ensures Fits(CRC16, w, n + 2) == Fits(CRC16, w >> 2, n)
  {
    HalvedTwice(w);
    assert Fits(CRC16, w, n + 2) == Fits(CRC16, w >> 1, n + 1);
  }

  lemma FitsFour(w: bv16, n: nat)
    ensures Fits(CRC16, w, n + 4) == Fits(CRC16, w >> 4, n)
  {
    HalvedTwice(w);
    FitsTwo(w, n + 2);
    FitsTwo(w >> 2, n);
  }

  lemma FitsEight(w: bv16, n: nat)
    ensures Fits(CRC16, w, n + 8) == Fits(CRC16, w >> 8, n)
  {
    HalvedTwice(w);
    FitsFour(w, n + 4);
    FitsFour(w >> 4, n);
  }

  lemma WordFits(w: bv16)
    ensures Fits(CRC16, w, 16)
  {
    HalvedTwice(w);
    FitsEight(w, 8);
    FitsEight(w >> 8, 0);
  }

  lemma FifteenBits(w: bv16)
    ensures Fits(CRC16, w, 15) <==> w >> 15 == 0
  {
    HalvedTwice(w);
    FitsEight(w, 7);
    FitsFour(w >> 8, 3);
    FitsTwo(w >> 12, 1);
    FitsOne(w >> 14);
  }

  lemma FitsOne(w: bv16)
    ensures Fits(CRC16, w, 1) <==> w >> 1 == 0
  {
    assert Fits(CRC16, w, 1) == Fits(CRC16, Halve(w), 0);
  }

  lemma DroppedOneShows(a: bv16)
    requires a & 1 == 1
    ensures CrcBit(a) >> 15 != 0
  {
  }

  lemma CrcShowsOnes()
    ensures ShowsOnes(CRC16, 15)
  {
    forall a ensures ShowsOne(CRC16, a, 15) {
      if a & 1 == 1 {
        DroppedOneShows(a);
        FifteenBits(CrcBit(a));
      }
    }
  }

  lemma {:induction false} ShiftsAreCrcShifts(c: bv16, n: nat)
    ensures Shifts(CRC16, c, n) == CrcShifts(c, n)
  {
    if n > 0 {
      ShiftsAreCrcShifts(c, n - 1);
    }
  }

  // ----- frames as bits -----

  /** The bits of a byte, lowest first, as they are sent. */
  function ByteBits(b: byte): (bits: seq<bool>)
    ensures |bits| == 8
  {
    Bits(CRC16, b as bv16, 8)
  }

  /** The bits of a frame in the order in which they are sent. */
  function FrameBits(frame: seq<byte>): (bits: seq<bool>)
    ensures |bits| == |frame| * 8
  {
    SpreadLength(ByteBits, frame, 8);
    Spread(ByteBits, frame)
  }

  lemma ByteFits(b: byte)
    ensures Fits(CRC16, b as bv16, 8)
  {
    ByteIsLow(b);
    FitsEight(b as bv16, 0);
  }

  lemma ByteIsLow(b: byte)
    ensures (b as bv16) >> 8 == 0
  {
  }

  lemma CrcByteIsFeed(crc: bv16, b: byte)
    ensures CrcByte(crc, b) == Feed(CRC16, crc, ByteBits(b))
  {
    CrcIsLinear();
    ByteFits(b);
    WordIsItsBits(CRC16, crc, b as bv16, 8);
    ShiftsAreCrcShifts(crc ^ (b as bv16), 8);
  }

  lemma {:induction false} CrcIsFeed(crc: bv16, frame: seq<byte>)
    ensures CrcFrom(crc, frame) == Feed(CRC16, crc, FrameBits(frame))
  {
    if frame != [] {
      var n := |frame| - 1;
      CrcIsFeed(crc, frame[..n]);
      FeedAppend(CRC16, crc, FrameBits(frame[..n]), ByteBits(frame[n]));
      CrcByteIsFeed(CrcFrom(crc, frame[..n]), frame[n]);
    }
  }

  // ----- a frame is accepted exactly when its whole CRC is zero -----

  lemma EvenShift(w: bv16, half: bv16)
    requires w & 1 == 0 && w >> 1 == half
    ensures CrcBit(w) == half
  {
  }

  lemma {:induction false} CrcShiftsAdd(w: bv16, m: nat, n: nat)
    ensures CrcShifts(w, m + n) == CrcShifts(CrcShifts(w, m), n)
  {
    if n > 0 {
      CrcShiftsAdd(w, m, n - 1);
    }
  }

  lemma EvenTwice(w: bv16)
    requires w & 3 == 0
    ensures w & 1 == 0 && (w >> 1) & 1 == 0 && (w >> 1) >> 1 == w >> 2
  {
  }

  lemma TwoEvenShifts(w: bv16)
    requires w & 3 == 0
    ensures CrcShifts(w, 2) == w >> 2
  {
    EvenTwice(w);
    var half := w >> 1;
    EvenShift(w, half);
    EvenShift(half, w >> 2);
    assert CrcShifts(w, 1) == half;
  }

  lemma FourZeros(w: bv16)
    requires w & 0xF == 0
    ensures w & 3 == 0 && (w >> 2) & 3 == 0 && (w >> 2) >> 2 == w >> 4
  {
  }

  lemma FourEvenShifts(w: bv16)
    requires w & 0xF == 0
    ensures CrcShifts(w, 4) == w >> 4
  {
    FourZeros(w);
    TwoEvenShifts(w);
    TwoEvenShifts(w >> 2);
    CrcShiftsAdd(w, 2, 2);
  }

  lemma HighByteShape(b: byte, x: bv16)
    requires x == (b as bv16) << 8
    ensures x & 0xF == 0 && (x >> 4) & 0xF == 0 && (x >> 4) >> 4 == b as bv16
  {
  }

  lemma HighByteInPlace(b: byte)
    ensures CrcShifts((b as bv16) << 8, 8) == b as bv16
  {
    var x := (b as bv16) << 8;
    HighByteShape(b, x);
    FourEvenShifts(x);
    FourEvenShifts(x >> 4);
    CrcShiftsAdd(x, 4, 4);
  }

  lemma JoinIsXor(low: byte, high: byte)
    ensures Rtu.Join(low, high) == (low as bv16) ^ ((high as bv16) << 8)
  {
  }

  lemma TrailerWords(crc: bv16, l: bv16, h: bv16, inPlace: bv16)
    requires CrcShifts(inPlace, 8) == h
    ensures CrcShifts(Xor(CrcShifts(Xor(crc, l), 8), h), 8) == 0 <==> crc == Xor(l, inPlace)
  {
    CrcIsLinear();
    ShiftsAreCrcShifts(inPlace, 8);
    ShiftsAreCrcShifts(Xor(crc, l), 8);
    ShiftsAreCrcShifts(Xor(CrcShifts(Xor(crc, l), 8), h), 8);
    TrailerResidue(CRC16, crc, l, h, inPlace, 8);
  }

  /** Running the register over its trailer leaves zero exactly when the trailer is the register. */
  lemma TrailerIsRegister(crc: bv16, low: byte, high: byte)
    ensures CrcByte(CrcByte(crc, low), high) == 0 <==> crc == Rtu.Join(low, high)
  {
    HighByteInPlace(high);
    TrailerWords(crc, low as bv16, high as bv16, (high as bv16) << 8);
    JoinIsXor(low, high);
  }

  lemma CrcOfWhole(crc: bv16, frame: seq<byte>)
    requires |frame| >= 2
    ensures CrcFrom(crc, frame)
         == CrcByte(CrcByte(CrcFrom(crc, frame[..|frame| - 2]), frame[|frame| - 2]), frame[|frame| - 1])
  {
    var n := |frame|;
    assert frame[..n - 1][..n - 2] == frame[..n - 2];
  }

  lemma AcceptedWhole(frame: seq<byte>)
    requires |frame| >= MIN_FRAME
    ensures Decode(frame).Ok? <==> Crc(frame) == 0
  {
    var n := |frame|;
    CrcOfWhole(0xFFFF, frame);
    TrailerIsRegister(Crc(frame[..n - 2]), frame[n - 2], frame[n - 1]);
  }

  /** A frame is accepted exactly when the register ends at zero after reading all of it, trailer included. */
  lemma AcceptedMeansZero(frame: seq<byte>)
    ensures Decode(frame).Ok? <==> |frame| >= MIN_FRAME && Feed(CRC16, 0xFFFF, FrameBits(frame)) == 0
  {
    if |frame| >= MIN_FRAME {
      AcceptedWhole(frame);
      CrcIsFeed(0xFFFF, frame);
    }
  }

  // ----- short bursts -----

  /** Two accepted frames whose bits agree outside a window of sixteen agree inside it as well: every error burst of up
      to sixteen bits is detected, wherever it falls and whatever the frame's length. */
  lemma BurstDetected(f: seq<byte>, g: seq<byte>, before: seq<bool>, x: seq<bool>, y: seq<bool>, after: seq<bool>)
    requires Decode(f).Ok? && Decode(g).Ok?
    requires FrameBits(f) == before + x + after && FrameBits(g) == before + y + after
    requires |x| == |y| <= 16
    ensures x == y
  {
    AcceptedMeansZero(f);
    AcceptedMeansZero(g);
    CrcIsLinear();
    UnnoticedInWindow(CRC16, 0xFFFF, before, x, y, after);
    CrcHasWords();
    CrcShowsOnes();
    ShortPatternNoticed(CRC16, Difference(x, y), 15);
  }

  lemma SameByte(a: byte, b: byte)
    requires a as bv16 == b as bv16
    ensures a == b
  {
  }

  lemma ByteBitsInjective(a: byte, b: byte)
    requires ByteBits(a) == ByteBits(b)
    ensures a == b
  {
    ByteFits(a);
    ByteFits(b);
    CrcHasWords();
    BitsInjective(CRC16, a as bv16, b as bv16, 8);
    SameByte(a, b);
  }

  lemma FrameBitsInjective(f: seq<byte>, g: seq<byte>)
    requires |f| == |g| && FrameBits(f) == FrameBits(g)
    ensures f == g
  {
    forall a, b ensures ByteBits(a) == ByteBits(b) ==> a == b {
      if ByteBits(a) == ByteBits(b) {
        ByteBitsInjective(a, b);
      }
    }
    SpreadInjective(ByteBits, f, g, 8);
  }

  /** Changing one byte, or two bytes side by side, anywhere in an accepted frame, its trailer included, makes the
      decoder refuse it. */
  lemma AdjacentBytesDetected(head: seq<byte>, x: seq<byte>, y: seq<byte>, tail: seq<byte>)
    requires Decode(head + x + tail).Ok?
    requires |x| == |y| <= 2 && x != y
    ensures Decode(head + y + tail) == Err
  {
    if Decode(head + y + tail).Ok? {
      SpreadThree(ByteBits, head, x, tail);
      SpreadThree(ByteBits, head, y, tail);
      BurstDetected(head + x + tail, head + y + tail, FrameBits(head), FrameBits(x), FrameBits(y), FrameBits(tail));
      FrameBitsInjective(x, y);
    }
  }

  // ----- odd errors -----

  /** Whether a word has an odd number of ones. */
  function Odd(w: bv16): bool {
    OddWord(CRC16, w, 16)
  }

  lemma OddOne(w: bv16, n: nat)
    ensures OddWord(CRC16, w, n + 1) == (LowBit(w) != OddWord(CRC16, Halve(w), n))
  {
    assert Bits(CRC16, w, n + 1)[1..] == Bits(CRC16, Halve(w), n);
  }

  lemma OddPair(w: bv16, q: bv16, n: nat)
    requires w >> 2 == q && (w & 3 == 0 || w & 3 == 3)
    ensures OddWord(CRC16, w, n + 2) == OddWord(CRC16, q, n)
  {
    OddOne(w, n + 1);
    OddOne(Halve(w), n);
    PairOfBits(w);
  }

  lemma PairOfBits(w: bv16)
    requires w & 3 == 0 || w & 3 == 3
    ensures LowBit(w) == LowBit(Halve(w)) && Halve(Halve(w)) == w >> 2
  {
  }

  lemma OddSmall(n: nat)
    requires n > 0
    ensures !OddWord(CRC16, 0, n) && OddWord(CRC16, 1, n)
  {
    CrcIsLinear();
    CrcHasWords();
    OddZero(CRC16, n);
    OddZero(CRC16, n - 1);
    OddOne(1, n - 1);
  }

  lemma OddPolynomial()
    ensures Odd(0xA001)
  {
    OddOne(0xA001, 15);
    OddPair(0x5000, 0x1400, 13);
    OddPair(0x1400, 0x0500, 11);
    OddPair(0x0500, 0x0140, 9);
    OddPair(0x0140, 0x0050, 7);
    OddPair(0x0050, 0x0014, 5);
    OddPair(0x0014, 0x0005, 3);
    OddOne(5, 2);
    OddOne(2, 1);
    OddSmall(1);
  }

  lemma EvenOnes()
    ensures !Odd(0xFFFF)
  {
    OddPair(0xFFFF, 0x3FFF, 14);
    OddPair(0x3FFF, 0x0FFF, 12);
    OddPair(0x0FFF, 0x03FF, 10);
    OddPair(0x03FF, 0x00FF, 8);
    OddPair(0x00FF, 0x003F, 6);
    OddPair(0x003F, 0x000F, 4);
    OddPair(0x000F, 0x0003, 2);
    OddPair(0x0003, 0, 0);
  }

  lemma OddConstants()
    ensures Odd(1) && Odd(0xA001) && !Odd(0) && !Odd(0xFFFF)
  {
    OddSmall(16);
    OddPolynomial();
    EvenOnes();
  }

  lemma CrcBitKeepsParity(a: bv16)
    ensures Odd(CrcBit(a)) == Odd(a)
  {
    CrcIsLinear();
    CrcHasWords();
    WordFits(a);
    OddPolynomial();
    OneGivesPolynomial();
    ShiftKeepsParity(CRC16, a, 16);
  }

  lemma OneGivesPolynomial()
    ensures CrcBit(1) == 0xA001
  {
  }

  lemma CrcKeepsParity()
    ensures Parity(CRC16, Odd)
  {
    CrcHasWords();
    OddConstants();
    forall a, b ensures MixAdds(CRC16, Odd, a, b) { OddMix(CRC16, a, b, 16); }
    forall a ensures Odd(CRC16.shift(a)) == Odd(a) { CrcBitKeepsParity(a); }
  }

  /** Every accepted frame has an even number of ones. */
  lemma AcceptedIsEven(f: seq<byte>)
    requires Decode(f).Ok?
    ensures !OddOnes(FrameBits(f))
  {
    AcceptedMeansZero(f);
    CrcKeepsParity();
    OddConstants();
    FeedParity(CRC16, Odd, 0xFFFF, FrameBits(f));
  }

  /** An odd number of flipped bits, wherever they are, makes the decoder refuse a frame that it accepted. */
  lemma OddErrorsDetected(f: seq<byte>, g: seq<byte>)
    requires Decode(f).Ok? && |g| == |f|
    requires OddOnes(Difference(FrameBits(f), FrameBits(g)))
    ensures Decode(g) == Err
  {
    AcceptedIsEven(f);
    OddOnesDifference(FrameBits(f), FrameBits(g));
    if Decode(g).Ok? {
      AcceptedIsEven(g);
    }
  }
}
