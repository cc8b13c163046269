/** How long the CRC-16 register takes to come back to where it was, and with it which double errors it notices. */
module CrcPeriod {
  import opened Rtu
  import opened CrcDetection
  import opened LinearRegister

  // ----- powers -----

  /** The register after n shifts from its top bit: the n-th power of x modulo the polynomial, in reflected form. */
  function Power(n: nat): bv16 {
    CrcShifts(0x8000, n)
  }

  // Squaring is linear: each power of x goes to the power with twice the exponent.  The powers below eight have room in
  // the register; the higher ones, in the low byte, are reduced.

  function Room(w: bv16): bv16 {
    (w & 0x8000) | ((w & 0x4000) >> 1) | ((w & 0x2000) >> 2) | ((w & 0x1000) >> 3)
    | ((w & 0x0800) >> 4) | ((w & 0x0400) >> 5) | ((w & 0x0200) >> 6) | ((w & 0x0100) >> 7)
  }

  function Part(w: bv16, bit: bv16, square: bv16): bv16 {
    if w & bit == 0 then 0 else square
  }

  function First(w: bv16): bv16 { Part(w, 0x0080, 0xA001) ^ Part(w, 0x0040, 0xD801) }

  function Second(w: bv16): bv16 { Part(w, 0x0020, 0xC601) ^ Part(w, 0x0010, 0xC181) }

  function Third(w: bv16): bv16 { Part(w, 0x0008, 0xC061) ^ Part(w, 0x0004, 0xC019) }

  function Fourth(w: bv16): bv16 { Part(w, 0x0002, 0xC007) ^ Part(w, 0x0001, 0x6001) }

  function Upper(w: bv16): bv16 { Xor(First(w), Second(w)) }

  function Lower(w: bv16): bv16 { Xor(Third(w), Fourth(w)) }

  function Reduced(w: bv16): bv16 { Xor(Upper(w), Lower(w)) }

  function Square(w: bv16): bv16 { Xor(Room(w), Reduced(w)) }

  lemma RoomOfXor(a: bv16, b: bv16)
    ensures Room(a ^ b) == Room(a) ^ Room(b)
  {
  }

  lemma RoomAdditive()
    ensures Additive(CRC16, Room)
  {
    forall a, b ensures Adds(CRC16, Room, a, b) {
      XorIs(a, b);
      XorIs(Room(a), Room(b));
      RoomOfXor(a, b);
    }
  }

  lemma FirstOfXor(a: bv16, b: bv16)
    ensures First(a ^ b) == First(a) ^ First(b)
  {
  }

  lemma FirstAdditive()
    ensures Additive(CRC16, First)
  {
    forall a, b ensures Adds(CRC16, First, a, b) {
      XorIs(a, b);
      XorIs(First(a), First(b));
      FirstOfXor(a, b);
    }
  }

  lemma SecondOfXor(a: bv16, b: bv16)
    ensures Second(a ^ b) == Second(a) ^ Second(b)
  {
  }

  lemma SecondAdditive()
    ensures Additive(CRC16, Second)
  {
    forall a, b ensures Adds(CRC16, Second, a, b) {
      XorIs(a, b);
      XorIs(Second(a), Second(b));
      SecondOfXor(a, b);
    }
  }

  lemma ThirdOfXor(a: bv16, b: bv16)
    ensures Third(a ^ b) == Third(a) ^ Third(b)
  {
  }

  lemma ThirdAdditive()
    ensures Additive(CRC16, Third)
  {
    forall a, b ensures Adds(CRC16, Third, a, b) {
      XorIs(a, b);
      XorIs(Third(a), Third(b));
      ThirdOfXor(a, b);
    }
  }

  lemma FourthOfXor(a: bv16, b: bv16)
    ensures Fourth(a ^ b) == Fourth(a) ^ Fourth(b)
  {
  }

  lemma FourthAdditive()
    ensures Additive(CRC16, Fourth)
  {
    forall a, b ensures Adds(CRC16, Fourth, a, b) {
      XorIs(a, b);
      XorIs(Fourth(a), Fourth(b));
      FourthOfXor(a, b);
    }
  }

  lemma ReducedAdditive()
    ensures Additive(CRC16, Reduced)
  {
    CrcIsLinear();
    FirstAdditive();
    SecondAdditive();
    ThirdAdditive();
    FourthAdditive();
    AdditiveMix(CRC16, First, Second, Upper);
    AdditiveMix(CRC16, Third, Fourth, Lower);
    AdditiveMix(CRC16, Upper, Lower, Reduced);
  }

  lemma SquareAdditive()
    ensures Additive(CRC16, Square)
  {
    CrcIsLinear();
    RoomAdditive();
    ReducedAdditive();
    AdditiveMix(CRC16, Room, Reduced, Square);
  }

  lemma Doubles0(w: bv16, part: bv16)
    requires part == w & 0xF000
    ensures Doubles(CRC16, Square, part)
  {
  }

  lemma Doubles1(w: bv16, part: bv16)
    requires part == w & 0x0F00
    ensures Doubles(CRC16, Square, part)
  {
  }

  lemma Doubles2(w: bv16, part: bv16)
    requires part == w & 0x00F0
    ensures Doubles(CRC16, Square, part)
  {
  }

  lemma Doubles3(w: bv16, part: bv16)
    requires part == w & 0x000F
    ensures Doubles(CRC16, Square, part)
  {
  }

  lemma Parts(w: bv16) returns (a: bv16, b: bv16, c: bv16, d: bv16)
    ensures w == Xor(Xor(a, b), Xor(c, d))
    ensures a == w & 0xF000 && b == w & 0x0F00 && c == w & 0x00F0 && d == w & 0x000F
  {
    a, b, c, d := w & 0xF000, w & 0x0F00, w & 0x00F0, w & 0x000F;
  }

  lemma DoublesParts(w: bv16) returns (a: bv16, b: bv16, c: bv16, d: bv16)
    ensures w == Xor(Xor(a, b), Xor(c, d))
    ensures Doubles(CRC16, Square, a) && Doubles(CRC16, Square, b)
    ensures Doubles(CRC16, Square, c) && Doubles(CRC16, Square, d)
  {
    a, b, c, d := Parts(w);
    Doubles0(w, a);
    Doubles1(w, b);
    Doubles2(w, c);
    Doubles3(w, d);
  }

  /** Squaring after one shift is two shifts after squaring. */
  lemma SquareOfShift(w: bv16)
    ensures Square(CrcBit(w)) == CrcBit(CrcBit(Square(w)))
  {
    CrcIsLinear();
    SquareAdditive();
    var a, b, c, d := DoublesParts(w);
    DoublesTogether(CRC16, Square, a, b);
    DoublesTogether(CRC16, Square, c, d);
    DoublesTogether(CRC16, Square, Xor(a, b), Xor(c, d));
  }

  lemma {:induction false} SquareOfPower(n: nat)
    ensures Power(2 * n) == Square(Power(n))
  {
    if n == 0 {
      assert Square(0x8000) == 0x8000;
    } else {
      SquareOfPower(n - 1);
      SquareOfShift(Power(n - 1));
      assert Power(2 * n) == CrcBit(Power(2 * n - 1)) == CrcBit(CrcBit(Power(2 * n - 2)));
    }
  }

  lemma Double(n: nat, w: bv16, square: bv16)
    requires Power(n) == w && Square(w) == square
    ensures Power(2 * n) == square
  {
    SquareOfPower(n);
  }

  lemma Advance(n: nat, w: bv16, next: bv16)
    requires Power(n) == w && CrcBit(w) == next
    ensures Power(n + 1) == next
  {
  }

  lemma FirstPower()
    ensures Power(1) == 0x4000
  {
    assert Power(0) == 0x8000;
  }

  lemma Power26()
    ensures Power(26) == 0xC019
  {
    FirstPower();
    Double(1, 0x4000, 0x2000);
    Advance(2, 0x2000, 0x1000);
    Double(3, 0x1000, 0x0200);
    Double(6, 0x0200, 0x0008);
    Advance(12, 0x0008, 0x0004);
    Double(13, 0x0004, 0xC019);
  }

  lemma Power217()
    ensures Power(217) == 0x3E55
  {
    Power26();
    Advance(26, 0xC019, 0xC00D);
    Double(27, 0xC00D, 0xC079);
    Double(54, 0xC079, 0xDFE1);
    Double(108, 0xDFE1, 0x7CAA);
    Advance(216, 0x7CAA, 0x3E55);
  }

  lemma Power33()
    ensures Power(33) == 0xD401
  {
    FirstPower();
    Double(1, 0x4000, 0x2000);
    Double(2, 0x2000, 0x0800);
    Double(4, 0x0800, 0x0080);
    Double(8, 0x0080, 0xA001);
    Double(16, 0xA001, 0xE801);
    Advance(32, 0xE801, 0xD401);
  }

  lemma Power1057()
    ensures Power(1057) == 0xCE41
  {
    Power33();
    Double(33, 0xD401, 0xC221);
    Double(66, 0xC221, 0x0608);
    Double(132, 0x0608, 0xC049);
    Double(264, 0xC049, 0xD861);
    Double(528, 0xD861, 0xDC81);
    Advance(1056, 0xDC81, 0xCE41);
  }

  lemma Power36()
    ensures Power(36) == 0xC281
  {
    FirstPower();
    Double(1, 0x4000, 0x2000);
    Double(2, 0x2000, 0x0800);
    Double(4, 0x0800, 0x0080);
    Advance(8, 0x0080, 0x0040);
    Double(9, 0x0040, 0xD801);
    Double(18, 0xD801, 0xC281);
  }

  lemma Power585()
    ensures Power(585) == 0x0F31
  {
    Power36();
    Double(36, 0xC281, 0x6008);
    Advance(72, 0x6008, 0x3004);
    Double(73, 0x3004, 0xCA19);
    Double(146, 0xCA19, 0xC169);
    Double(292, 0xC169, 0x1E62);
    Advance(584, 0x1E62, 0x0F31);
  }

  lemma Power4681()
    ensures Power(4681) == 0x8C69
  {
    Power585();
    Double(585, 0x0F31, 0x672B);
    Double(1170, 0x672B, 0x8E4C);
    Double(2340, 0x8E4C, 0x58D1);
    Advance(4680, 0x58D1, 0x8C69);
  }

  lemma Power64()
    ensures Power(64) == 0xC881
  {
    FirstPower();
    Double(1, 0x4000, 0x2000);
    Double(2, 0x2000, 0x0800);
    Double(4, 0x0800, 0x0080);
    Double(8, 0x0080, 0xA001);
    Double(16, 0xA001, 0xE801);
    Double(32, 0xE801, 0xC881);
  }

  lemma Power4096()
    ensures Power(4096) == 0xA881
  {
    Power64();
    Double(64, 0xC881, 0x6080);
    Double(128, 0x6080, 0x8801);
    Double(256, 0x8801, 0xE081);
    Double(512, 0xE081, 0x6800);
    Double(1024, 0x6800, 0x2880);
    Double(2048, 0x2880, 0xA881);
  }

  /** Fifteen squarings of x give x back. */
  lemma Power32768()
    ensures Power(32768) == 0x4000
  {
    Power4096();
    Double(4096, 0xA881, 0x4880);
    Double(8192, 0x4880, 0x8081);
    Double(16384, 0x8081, 0x4000);
  }

  lemma UnshiftTop(w: bv16)
    requires CrcBit(w) == 0x4000
    ensures w == 0x8000
  {
  }

  // ----- periods -----

  /** After n shifts the register is where it began. */
  predicate Period(n: nat) {
    Power(n) == 0x8000
  }

  lemma FullPeriod()
    ensures Period(32767)
  {
    Power32768();
    assert Power(32768) == CrcBit(Power(32767));
    UnshiftTop(Power(32767));
  }

  lemma PeriodsAdd(a: nat, b: nat)
    requires Period(a)
    ensures Period(a + b) <==> Period(b)
  {
    CrcShiftsAdd(0x8000, a, b);
  }

  lemma {:induction false} Multiples(a: nat, k: nat)
    requires Period(a)
    ensures Period(k * a)
  {
    if k > 0 {
      Multiples(a, k - 1);
      PeriodsAdd(a, (k - 1) * a);
      assert a + (k - 1) * a == k * a;
    }
  }

  predicate IsPrime(p: nat) {
    p >= 2 && forall r :: 2 <= r < p ==> Indivisible(p, r)
  }

  predicate Indivisible(p: nat, r: nat)
    requires r > 0
  {
    p % r != 0
  }

  /** Modulo a prime every other remainder has an inverse. */
  lemma {:induction false} Inverse(p: nat, r: nat) returns (a: nat, t: nat)
    requires IsPrime(p) && 0 < r < p
    ensures a * r == p * t + 1
    decreases r
  {
    if r == 1 {
      a, t := 1, 0;
    } else {
      var q, s := Divide(p, r);
      var b, u := Inverse(p, s);
      a, t := b * (p - q), b * (r - 1) + u;
      InverseStep(p, r, q, s, b, u);
    }
  }

  lemma Divide(p: nat, r: nat) returns (q: nat, s: nat)
    requires IsPrime(p) && 2 <= r < p
    ensures p == q * r + s && 0 < s < r && q <= p
  {
    assert Indivisible(p, r);
    q, s := p / r, p % r;
    AtLeastOnce(q, r);
  }

  lemma InverseStep(p: nat, r: nat, q: nat, s: nat, b: nat, u: nat)
    requires p == q * r + s && b * s == p * u + 1
    ensures b * (p - q) * r == p * (b * (r - 1) + u) + 1
  {
    calc {
      b * (p - q) * r;
      b * ((p - q) * r);
      { assert (p - q) * r == p * (r - 1) + s; }
      b * (p * (r - 1) + s);
      b * (p * (r - 1)) + b * s;
      { assert b * (p * (r - 1)) == p * (b * (r - 1)); }
      p * (b * (r - 1)) + p * u + 1;
    }
  }

  lemma Remainder(p: nat, k: int, r: nat)
    requires r < p
    ensures (p * k + r) % p == r
  {
    var n := p * k + r;
    SameQuotient(p, n / p, n % p, k, r);
  }

  lemma SameQuotient(p: nat, q: int, r: nat, k: int, s: nat)
    requires p * q + r == p * k + s && r < p && s < p
    ensures q == k
  {
    if q > k {
      assert p * (q - k) == p * q - p * k;
      AtLeastOnce(p, q - k);
    } else if q < k {
      assert p * (k - q) == p * k - p * q;
      AtLeastOnce(p, k - q);
    }
  }

  lemma {:induction false} AtLeastOnce(p: nat, d: int)
    requires d >= 1
    ensures p * d >= p
  {
    if d > 1 {
      AtLeastOnce(p, d - 1);
      assert p * d == p * (d - 1) + p;
    }
  }

  /** A period that a prime does not divide makes the rest of the full period one too. */
  lemma WithoutPrime(n: nat, p: nat, rest: nat)
    requires Period(n) && IsPrime(p) && n % p != 0 && p * rest == 32767
    ensures Period(rest)
  {
    var a, u := Inverse(p, n % p);
    var t := a * (n / p) + u;
    MultipleOfSum(a, p, n / p, n % p, u);
    Multiples(n, a * rest);
    FullPeriod();
    Multiples(32767, t);
    PeriodsAdd(t * 32767, rest);
    TimesRest(a, n, p, rest, t);
  }

  lemma TimesRest(a: nat, n: nat, p: nat, rest: nat, t: nat)
    requires a * n == p * t + 1 && p * rest == 32767
    ensures a * rest * n == t * 32767 + rest
  {
    calc {
      a * rest * n;
      rest * (a * n);
      rest * (p * t + 1);
      { assert rest * (p * t) == p * rest * t; }
      p * rest * t + rest;
    }
  }

  lemma MultipleOfSum(a: nat, p: nat, q: nat, r: nat, t: nat)
    requires a * r == p * t + 1
    ensures a * (p * q + r) == p * (a * q + t) + 1
  {
    assert a * (p * q) == p * (a * q);
  }

  lemma Primes()
    ensures IsPrime(7) && IsPrime(31) && IsPrime(151)
  {
    forall r | 2 <= r < 7 ensures Indivisible(7, r) {
    }
    assert forall k :: 2 <= k <= 5 ==> Indivisible(31, k);
    forall r | 2 <= r < 31 ensures Indivisible(31, r) {
      SmallFactor(31, r, 5);
    }
    assert forall k :: 2 <= k <= 12 ==> Indivisible(151, k);
    forall r | 2 <= r < 151 ensures Indivisible(151, r) {
      SmallFactor(151, r, 12);
    }
  }

  /** A number with a factor has one that is at most its root. */
  lemma SmallFactor(p: nat, r: nat, root: nat)
    requires 2 <= r < p < (root + 1) * (root + 1)
    requires forall k :: 2 <= k <= root ==> Indivisible(p, k)
    ensures Indivisible(p, r)
  {
    if p % r == 0 && r > root {
      var k := p / r;
      assert k * r == p;
      Smaller(k, r, root);
      assert 2 <= k <= root;
      assert Indivisible(p, k);
      Remainder(k, r, 0);
    }
  }

  lemma Smaller(k: nat, r: nat, root: nat)
    requires r > root && k * r < (root + 1) * (root + 1)
    ensures k <= root
  {
    if k > root {
      ProductsGrow(root + 1, k, root + 1, r);
    }
  }

  lemma ProductsGrow(a: nat, b: nat, c: nat, d: nat)
    requires a <= b && c <= d
    ensures a * c <= b * d
  {
    assert (b - a) * c >= 0 && b * (d - c) >= 0;
  }

  lemma DividesAll(n: nat)
    requires n % 7 == 0 && n % 31 == 0 && n % 151 == 0
    ensures n % 32767 == 0
  {
    var a := n / 7;
    Divides31(a);
    var b := a / 31;
    assert n == 217 * b;
    Divides151(b);
    var c := b / 151;
    assert n == 32767 * c;
  }

  lemma Divides31(a: nat)
    requires 7 * a % 31 == 0
    ensures a % 31 == 0
  {
    var k := 7 * a / 31;
    assert a == 31 * (9 * k - 2 * a);
  }

  lemma Divides151(b: nat)
    requires 217 * b % 151 == 0
    ensures b % 151 == 0
  {
    var k := 217 * b / 151;
    assert b == 151 * (135 * k - 194 * b);
  }

  /** The register comes back exactly after multiples of 32767 shifts. */
  lemma PeriodIff(n: nat)
    ensures Period(n) <==> n % 32767 == 0
  {
    FullPeriod();
    Primes();
    Power217();
    Power1057();
    Power4681();
    if n % 32767 == 0 {
      Multiples(32767, n / 32767);
    } else if Period(n) {
      if n % 7 != 0 {
        WithoutPrime(n, 7, 4681);
      } else if n % 31 != 0 {
        WithoutPrime(n, 31, 1057);
      } else if n % 151 != 0 {
        WithoutPrime(n, 151, 217);
      } else {
        DividesAll(n);
      }
    }
  }

  /** The same from the low bit, where a shift drops it. */
  lemma LowBitReturnsIff(n: nat)
    ensures CrcShifts(1, n) == 1 <==> n % 32767 == 0
  {
    LowBitIsPower();
    CrcShiftsAdd(0x8000, 15, n);
    PeriodIff(n);
    if Period(n) {
      PeriodsEnd(n, 15);
    } else {
      assert Power(15 + n) == CrcShifts(1, n);
      if Power(15 + n) == Power(15) {
        FullPeriod();
        CommonEnd(15, n, 32752);
        PeriodsAdd(32767, n);
      }
    }
  }

  lemma PeriodsEnd(n: nat, m: nat)
    requires Period(n)
    ensures Power(m + n) == Power(m)
  {
    CrcShiftsAdd(0x8000, n, m);
    assert n + m == m + n;
  }

  lemma CommonEnd(m: nat, n: nat, rest: nat)
    requires Power(m + n) == Power(m) && Period(m + rest)
    ensures Period(m + rest + n)
  {
    CrcShiftsAdd(0x8000, m, rest);
    CrcShiftsAdd(0x8000, m + n, rest);
    assert m + n + rest == m + rest + n;
  }

  lemma LowBitIsPower()
    ensures Power(15) == 1
  {
    FirstPower();
    Double(1, 0x4000, 0x2000);
    Advance(2, 0x2000, 0x1000);
    Double(3, 0x1000, 0x0200);
    Advance(6, 0x0200, 0x0100);
    Double(7, 0x0100, 0x0002);
    Advance(14, 0x0002, 0x0001);
  }
}
