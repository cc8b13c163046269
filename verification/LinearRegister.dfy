/** A shift register that mixes in one bit at a time, over any values on which mixing and shifting are linear.

    CRC-16 is one such register.  What follows from linearity alone is proved here, away from machine words. */
module LinearRegister {

  /** Mixing is exclusive or; `low` tells the bit that a shift drops and `halve` what a plain shift leaves. */
  datatype Register<!T> = Register(zero: T, one: T, mix: (T, T) -> T, shift: T -> T, low: T -> bool, halve: T -> T)
  {
    function Bit(b: bool): T { if b then one else zero }
  }

  // The laws, each named so that a proof can ask for the instance it needs.

  predicate Commutes<T(==)>(r: Register<T>, a: T, b: T) { r.mix(a, b) == r.mix(b, a) }

  predicate Associates<T(==)>(r: Register<T>, a: T, b: T, c: T) { r.mix(r.mix(a, b), c) == r.mix(a, r.mix(b, c)) }

  predicate Cancels<T(==)>(r: Register<T>, a: T) { r.mix(a, r.zero) == a && r.mix(a, a) == r.zero }

  predicate ShiftsApart<T(==)>(r: Register<T>, a: T, b: T) { r.shift(r.mix(a, b)) == r.mix(r.shift(a), r.shift(b)) }

  predicate LosesNothing<T(==)>(r: Register<T>, a: T) { r.shift(a) == r.zero ==> a == r.zero }

  predicate Halves<T(==)>(r: Register<T>, a: T) { r.shift(a) == r.mix(r.shift(r.Bit(r.low(a))), r.halve(a)) }

  predicate Splits<T(==)>(r: Register<T>, a: T, b: T) {
    r.low(r.mix(a, b)) == (r.low(a) != r.low(b)) && r.halve(r.mix(a, b)) == r.mix(r.halve(a), r.halve(b))
  }

  predicate PartsTell<T(==)>(r: Register<T>, a: T, b: T) {
    r.low(a) == r.low(b) && r.halve(a) == r.halve(b) ==> a == b
  }

  /** A shift that drops a one sets a bit that takes more than k halvings to go. */
  predicate ShowsOne<T(==)>(r: Register<T>, a: T, k: nat) { r.low(a) ==> !Fits(r, r.shift(a), k) }

  ghost predicate Linear<T(!new)>(r: Register<T>) {
    && (forall a, b :: Commutes(r, a, b))
    && (forall a, b, c :: Associates(r, a, b, c))
    && (forall a :: Cancels(r, a))
    && (forall a, b :: ShiftsApart(r, a, b))
    && (forall a :: LosesNothing(r, a))
    && (forall a :: Halves(r, a))
  }

  /** Words are made of bits, the lowest of `one` alone being set. */
  ghost predicate Words<T(!new)>(r: Register<T>) {
    && (forall a, b :: Splits(r, a, b))
    && (forall a, b :: PartsTell(r, a, b))
    && r.low(r.one) && r.halve(r.one) == r.zero
  }

  ghost predicate ShowsOnes<T(!new)>(r: Register<T>, k: nat) {
    forall a :: ShowsOne(r, a, k)
  }

  function Shifts<T>(r: Register<T>, c: T, n: nat): T {
    if n == 0 then c else r.shift(Shifts(r, c, n - 1))
  }

  /** The register after reading some bits. */
  function Feed<T>(r: Register<T>, c: T, bits: seq<bool>): T
    decreases |bits|
  {
    if bits == [] then c else Feed(r, r.shift(r.mix(c, r.Bit(bits[0]))), bits[1..])
  }

  /** The n bits that halving drops, in the order in which they go. */
  function Bits<T>(r: Register<T>, w: T, n: nat): (bits: seq<bool>)
    ensures |bits| == n
    decreases n
  {
    if n == 0 then [] else [r.low(w)] + Bits(r, r.halve(w), n - 1)
  }

  /** Halving n times leaves nothing. */
  predicate Fits<T(==)>(r: Register<T>, w: T, n: nat)
    decreases n
  {
    if n == 0 then w == r.zero else Fits(r, r.halve(w), n - 1)
  }

  lemma MixZero<T(!new)>(r: Register<T>, a: T, b: T)
    requires Linear(r)
    ensures r.mix(a, b) == r.zero <==> a == b
    ensures r.mix(a, r.zero) == a && r.mix(r.zero, a) == a
    ensures r.shift(r.zero) == r.zero
  {
    assert Cancels(r, a) && Cancels(r, b) && Commutes(r, r.zero, a) && Commutes(r, r.zero, b) && Associates(r, a, b, b);
    assert Cancels(r, r.zero) && ShiftsApart(r, r.zero, r.zero) && Cancels(r, r.shift(r.zero));
  }

  lemma MixMix<T(!new)>(r: Register<T>, a: T, b: T, c: T, d: T)
    requires Linear(r)
    ensures r.mix(r.mix(a, b), r.mix(c, d)) == r.mix(r.mix(a, c), r.mix(b, d))
  {
    assert Associates(r, a, b, r.mix(c, d)) && Associates(r, b, c, d) && Commutes(r, b, c) && Associates(r, c, b, d);
    assert Associates(r, a, c, r.mix(b, d));
  }

  lemma {:induction false} ShiftsLinear<T(!new)>(r: Register<T>, a: T, b: T, n: nat)
    requires Linear(r)
    ensures Shifts(r, r.mix(a, b), n) == r.mix(Shifts(r, a, n), Shifts(r, b, n))
  {
    if n > 0 {
      ShiftsLinear(r, a, b, n - 1);
      assert ShiftsApart(r, Shifts(r, a, n - 1), Shifts(r, b, n - 1));
    }
  }

  lemma {:induction false} ShiftsZero<T(!new)>(r: Register<T>, a: T, n: nat)
    requires Linear(r)
    ensures Shifts(r, a, n) == r.zero <==> a == r.zero
  {
    MixZero(r, a, a);
    if n > 0 {
      ShiftsZero(r, a, n - 1);
      assert LosesNothing(r, Shifts(r, a, n - 1));
    }
  }

  lemma {:induction false} FeedAppend<T>(r: Register<T>, c: T, a: seq<bool>, b: seq<bool>)
    ensures Feed(r, c, a + b) == Feed(r, Feed(r, c, a), b)
    decreases |a|
  {
    if a == [] {
      assert a + b == b;
    } else {
      assert (a + b)[1..] == a[1..] + b;
      FeedAppend(r, r.shift(r.mix(c, r.Bit(a[0]))), a[1..], b);
    }
  }

  /** Mixing a word in and shifting once is reading its lowest bit and then mixing the rest in. */
  lemma PeelBit<T(!new)>(r: Register<T>, c: T, w: T)
    requires Linear(r)
    ensures r.shift(r.mix(c, w)) == r.mix(r.shift(r.mix(c, r.Bit(r.low(w)))), r.halve(w))
  {
    var bit := r.Bit(r.low(w));
    assert ShiftsApart(r, c, w) && Halves(r, w) && Associates(r, r.shift(c), r.shift(bit), r.halve(w));
    assert ShiftsApart(r, c, bit);
  }

  lemma {:induction false} ShiftsFirst<T>(r: Register<T>, c: T, n: nat)
    requires n > 0
    ensures Shifts(r, c, n) == Shifts(r, r.shift(c), n - 1)
  {
    if n > 1 {
      ShiftsFirst(r, c, n - 1);
    }
  }

  /** Mixing a whole word in and shifting it out is reading its bits one by one. */
  lemma {:induction false} WordIsItsBits<T(!new)>(r: Register<T>, c: T, w: T, n: nat)
    requires Linear(r) && Fits(r, w, n)
    ensures Shifts(r, r.mix(c, w), n) == Feed(r, c, Bits(r, w, n))
    decreases n
  {
    MixZero(r, c, c);
    if n > 0 {
      ShiftsFirst(r, r.mix(c, w), n);
      PeelBit(r, c, w);
      WordIsItsBits(r, r.shift(r.mix(c, r.Bit(r.low(w)))), r.halve(w), n - 1);
      assert Bits(r, w, n)[1..] == Bits(r, r.halve(w), n - 1);
    }
  }

  /** A register that goes on to read a two-part trailer ends at zero exactly when it equals the trailer. */
  lemma TrailerResidue<T(!new)>(r: Register<T>, c: T, first: T, second: T, secondInPlace: T, n: nat)
    requires Linear(r) && Shifts(r, secondInPlace, n) == second
    ensures Shifts(r, r.mix(Shifts(r, r.mix(c, first), n), second), n) == r.zero <==> c == r.mix(first, secondInPlace)
  {
    var all := r.mix(r.mix(c, first), secondInPlace);
    ShiftsLinear(r, r.mix(c, first), secondInPlace, n);
    ShiftsZero(r, all, n);
    ShiftsZero(r, Shifts(r, all, n), n);
    assert Associates(r, c, first, secondInPlace);
    MixZero(r, c, r.mix(first, secondInPlace));
  }

  // ----- errors -----

  function Difference(a: seq<bool>, b: seq<bool>): (d: seq<bool>)
    requires |a| == |b|
    ensures |d| == |a|
    ensures forall i :: 0 <= i < |a| ==> d[i] == (a[i] != b[i])
  {
    seq(|a|, i requires 0 <= i < |a| => a[i] != b[i])
  }

  lemma StepLinear<T(!new)>(r: Register<T>, c: T, x: bool, d: T, y: bool)
    requires Linear(r)
    ensures r.mix(r.shift(r.mix(c, r.Bit(x))), r.shift(r.mix(d, r.Bit(y))))
         == r.shift(r.mix(r.mix(c, d), r.Bit(x != y)))
  {
    MixMix(r, c, r.Bit(x), d, r.Bit(y));
    MixZero(r, r.one, r.one);
    MixZero(r, r.zero, r.one);
    assert ShiftsApart(r, r.mix(c, r.Bit(x)), r.mix(d, r.Bit(y)));
    assert Cancels(r, r.one) && Cancels(r, r.zero);
  }

  /** Two runs of the register differ by a run over the difference of what they read. */
  lemma {:induction false} FeedLinear<T(!new)>(r: Register<T>, c: T, a: seq<bool>, d: T, b: seq<bool>)
    requires Linear(r) && |a| == |b|
    ensures r.mix(Feed(r, c, a), Feed(r, d, b)) == Feed(r, r.mix(c, d), Difference(a, b))
    decreases |a|
  {
    if a != [] {
      StepLinear(r, c, a[0], d, b[0]);
      FeedLinear(r, r.shift(r.mix(c, r.Bit(a[0]))), a[1..], r.shift(r.mix(d, r.Bit(b[0]))), b[1..]);
      assert Difference(a, b)[1..] == Difference(a[1..], b[1..]);
    }
  }

  predicate AllFalse(bits: seq<bool>) {
    forall i :: 0 <= i < |bits| ==> !bits[i]
  }

  lemma {:induction false} ZeroBitsKeepZero<T(!new)>(r: Register<T>, c: T, bits: seq<bool>)
    requires Linear(r) && AllFalse(bits)
    ensures Feed(r, c, bits) == r.zero <==> c == r.zero
    decreases |bits|
  {
    if bits != [] {
      MixZero(r, c, c);
      assert LosesNothing(r, c);
      ZeroBitsKeepZero(r, r.shift(c), bits[1..]);
    }
  }

  /** Two readings from one start, alike before and after a window and both ending at zero, differ in the window by a
      pattern that the register, started at zero, does not notice. */
  lemma UnnoticedInWindow<T(!new)>(r: Register<T>, c: T,
                                   before: seq<bool>, x: seq<bool>, y: seq<bool>, after: seq<bool>)
    requires Linear(r) && |x| == |y|
    requires Feed(r, c, before + x + after) == r.zero == Feed(r, c, before + y + after)
    ensures Feed(r, r.zero, Difference(x, y)) == r.zero
  {
    FeedAppend(r, c, before + x, after);
    FeedAppend(r, c, before, x);
    FeedAppend(r, c, before + y, after);
    FeedAppend(r, c, before, y);
    var s := Feed(r, c, before);
    var p, q := Feed(r, s, x), Feed(r, s, y);
    FeedLinear(r, p, after, q, after);
    MixZero(r, r.zero, r.zero);
    ZeroBitsKeepZero(r, r.mix(p, q), Difference(after, after));
    FeedLinear(r, s, x, s, y);
    MixZero(r, s, s);
  }

  // ----- additive maps -----

  predicate Adds<T(==)>(r: Register<T>, f: T -> T, a: T, b: T) { f(r.mix(a, b)) == r.mix(f(a), f(b)) }

  ghost predicate Additive<T(!new)>(r: Register<T>, f: T -> T) {
    forall a, b :: Adds(r, f, a, b)
  }

  lemma AdditiveMix<T(!new)>(r: Register<T>, f: T -> T, g: T -> T, h: T -> T)
    requires Linear(r) && Additive(r, f) && Additive(r, g)
    requires forall x :: h(x) == r.mix(f(x), g(x))
    ensures Additive(r, h)
  {
    forall a, b ensures Adds(r, h, a, b) {
      assert Adds(r, f, a, b) && Adds(r, g, a, b);
      MixMix(r, f(a), f(b), g(a), g(b));
    }
  }

  /** A map that turns one shift into two. */
  predicate Doubles<T(==)>(r: Register<T>, f: T -> T, w: T) {
    f(r.shift(w)) == r.shift(r.shift(f(w)))
  }

  lemma DoublesTogether<T(!new)>(r: Register<T>, f: T -> T, a: T, b: T)
    requires Linear(r) && Additive(r, f) && Doubles(r, f, a) && Doubles(r, f, b)
    ensures Doubles(r, f, r.mix(a, b))
  {
    assert ShiftsApart(r, a, b) && Adds(r, f, r.shift(a), r.shift(b)) && Adds(r, f, a, b);
    assert ShiftsApart(r, f(a), f(b)) && ShiftsApart(r, r.shift(f(a)), r.shift(f(b)));
  }

  // ----- words as bits -----

  lemma ZeroParts<T(!new)>(r: Register<T>)
    requires Linear(r) && Words(r)
    ensures !r.low(r.zero) && r.halve(r.zero) == r.zero
  {
    MixZero(r, r.zero, r.zero);
    assert Splits(r, r.zero, r.zero);
    MixZero(r, r.halve(r.zero), r.halve(r.zero));
  }

  lemma {:induction false} BitsOfMix<T(!new)>(r: Register<T>, a: T, b: T, n: nat)
    requires Words(r)
    ensures Bits(r, r.mix(a, b), n) == Difference(Bits(r, a, n), Bits(r, b, n))
    decreases n
  {
    if n > 0 {
      assert Splits(r, a, b);
      BitsOfMix(r, r.halve(a), r.halve(b), n - 1);
      assert Difference(Bits(r, a, n), Bits(r, b, n))
          == [r.low(a) != r.low(b)] + Difference(Bits(r, r.halve(a), n - 1), Bits(r, r.halve(b), n - 1));
    }
  }

  lemma {:induction false} BitsInjective<T(!new)>(r: Register<T>, v: T, w: T, n: nat)
    requires Words(r) && Fits(r, v, n) && Fits(r, w, n) && Bits(r, v, n) == Bits(r, w, n)
    ensures v == w
    decreases n
  {
    if n > 0 {
      var vs, ws := Bits(r, v, n), Bits(r, w, n);
      assert vs[0] == r.low(v) && ws[0] == r.low(w);
      assert vs[1..] == Bits(r, r.halve(v), n - 1) && ws[1..] == Bits(r, r.halve(w), n - 1);
      BitsInjective(r, r.halve(v), r.halve(w), n - 1);
      assert PartsTell(r, v, w);
    }
  }

  lemma {:induction false} FitsLonger<T(!new)>(r: Register<T>, w: T, m: nat, n: nat)
    requires Linear(r) && Words(r) && Fits(r, w, m) && m <= n
    ensures Fits(r, w, n)
    decreases n
  {
    ZeroParts(r);
    if n > 0 {
      FitsLonger(r, r.halve(w), if m == 0 then 0 else m - 1, n - 1);
    }
  }

  // ----- short patterns -----

  /** A register that reaches zero within a few bits was made of those bits. */
  lemma {:induction false} ZeroAfterFewBits<T(!new)>(r: Register<T>, c: T, bits: seq<bool>, k: nat)
    requires Linear(r) && Words(r) && ShowsOnes(r, k)
    requires |bits| <= k + 1 && Feed(r, c, bits) == r.zero
    ensures Fits(r, c, |bits|)
    decreases |bits|
  {
    if bits != [] {
      var bit := r.Bit(bits[0]);
      var w := r.mix(c, bit);
      ZeroAfterFewBits(r, r.shift(w), bits[1..], k);
      FitsLonger(r, r.shift(w), |bits| - 1, k);
      assert ShowsOne(r, w, k) && Halves(r, w) && Splits(r, c, bit);
      ZeroParts(r);
      MixZero(r, r.halve(w), r.halve(c));
      MixZero(r, r.halve(c), r.halve(c));
    }
  }

  /** A register that shows every dropped one for k further bits notices every pattern of at most k + 1 bits. */
  lemma {:induction false} ShortPatternNoticed<T(!new)>(r: Register<T>, bits: seq<bool>, k: nat)
    requires Linear(r) && Words(r) && ShowsOnes(r, k)
    requires |bits| <= k + 1 && Feed(r, r.zero, bits) == r.zero
    ensures AllFalse(bits)
    decreases |bits|
  {
    if bits != [] {
      MixZero(r, r.Bit(bits[0]), r.zero);
      MixZero(r, r.zero, r.zero);
      if bits[0] {
        assert ShowsOne(r, r.one, k);
        ZeroAfterFewBits(r, r.shift(r.one), bits[1..], k);
        FitsLonger(r, r.shift(r.one), |bits| - 1, k);
      } else {
        ShortPatternNoticed(r, bits[1..], k);
      }
    }
  }

  // ----- bits of sequences -----

  /** The bits of the elements of a sequence, one element after the other. */
  function Spread<B>(bits: B -> seq<bool>, s: seq<B>): seq<bool>
    decreases |s|
  {
    if s == [] then [] else Spread(bits, s[..|s| - 1]) + bits(s[|s| - 1])
  }

  lemma {:induction false} SpreadAppend<B>(bits: B -> seq<bool>, a: seq<B>, b: seq<B>)
    ensures Spread(bits, a + b) == Spread(bits, a) + Spread(bits, b)
    decreases |b|
  {
    if b == [] {
      assert a + b == a;
    } else {
      var n := |b| - 1;
      assert (a + b)[..|a| + n] == a + b[..n];
      SpreadAppend(bits, a, b[..n]);
    }
  }

  lemma SpreadThree<B>(bits: B -> seq<bool>, a: seq<B>, x: seq<B>, b: seq<B>)
    ensures Spread(bits, a + x + b) == Spread(bits, a) + Spread(bits, x) + Spread(bits, b)
  {
    SpreadAppend(bits, a + x, b);
    SpreadAppend(bits, a, x);
  }

  lemma {:induction false} SpreadLength<B(!new)>(bits: B -> seq<bool>, s: seq<B>, width: nat)
    requires forall a :: |bits(a)| == width
    ensures |Spread(bits, s)| == |s| * width
    decreases |s|
  {
    if s != [] {
      SpreadLength(bits, s[..|s| - 1], width);
      assert |s| * width == (|s| - 1) * width + width;
    }
  }

  lemma SameParts(a: seq<bool>, b: seq<bool>, c: seq<bool>, d: seq<bool>)
    requires |b| == |d| && a + b == c + d
    ensures a == c && b == d
  {
    assert |a| == |a + b| - |b| == |c|;
    assert a == (a + b)[..|a|] && b == (a + b)[|a|..];
    assert c == (c + d)[..|c|] && d == (c + d)[|c|..];
  }

  lemma {:induction false} SpreadInjective<B(!new)>(bits: B -> seq<bool>, s: seq<B>, t: seq<B>, width: nat)
    requires forall a :: |bits(a)| == width
    requires forall a, b :: bits(a) == bits(b) ==> a == b
    requires |s| == |t| && Spread(bits, s) == Spread(bits, t)
    ensures s == t
    decreases |s|
  {
    if s != [] {
      var n := |s| - 1;
      SameParts(Spread(bits, s[..n]), bits(s[n]), Spread(bits, t[..n]), bits(t[n]));
      SpreadInjective(bits, s[..n], t[..n], width);
      assert s == s[..n] + [s[n]] && t == t[..n] + [t[n]];
    }
  }

  // ----- parity -----

  function OddOnes(bits: seq<bool>): bool {
    if bits == [] then false else bits[0] != OddOnes(bits[1..])
  }

  predicate MixAdds<T>(r: Register<T>, odd: T -> bool, a: T, b: T) { odd(r.mix(a, b)) == (odd(a) != odd(b)) }

  /** A parity of register values that mixing adds and shifting keeps. */
  ghost predicate Parity<T(!new)>(r: Register<T>, odd: T -> bool) {
    && (forall a, b :: MixAdds(r, odd, a, b))
    && (forall a :: odd(r.shift(a)) == odd(a))
    && odd(r.one) && !odd(r.zero)
  }

  lemma {:induction false} FeedParity<T(!new)>(r: Register<T>, odd: T -> bool, c: T, bits: seq<bool>)
    requires Parity(r, odd)
    ensures odd(Feed(r, c, bits)) == (odd(c) != OddOnes(bits))
    decreases |bits|
  {
    if bits != [] {
      var next := r.mix(c, r.Bit(bits[0]));
      assert odd(r.shift(next)) == odd(next) && MixAdds(r, odd, c, r.Bit(bits[0]));
      FeedParity(r, odd, r.shift(next), bits[1..]);
    }
  }

  lemma {:induction false} OddOnesDifference(a: seq<bool>, b: seq<bool>)
    requires |a| == |b|
    ensures OddOnes(Difference(a, b)) == (OddOnes(a) != OddOnes(b))
    decreases |a|
  {
    if a != [] {
      OddOnesDifference(a[1..], b[1..]);
      assert Difference(a, b)[1..] == Difference(a[1..], b[1..]);
    }
  }

  /** Whether an odd number of the n low bits of a word are set. */
  function OddWord<T>(r: Register<T>, w: T, n: nat): bool {
    OddOnes(Bits(r, w, n))
  }

  lemma OddMix<T(!new)>(r: Register<T>, a: T, b: T, n: nat)
    requires Words(r)
    ensures OddWord(r, r.mix(a, b), n) == (OddWord(r, a, n) != OddWord(r, b, n))
  {
    BitsOfMix(r, a, b, n);
    OddOnesDifference(Bits(r, a, n), Bits(r, b, n));
  }

  /** Looking for one more bit than a word has changes nothing. */
  lemma {:induction false} OddBeyond<T(!new)>(r: Register<T>, w: T, n: nat)
    requires Linear(r) && Words(r) && Fits(r, w, n)
    ensures OddWord(r, w, n + 1) == OddWord(r, w, n)
    decreases n
  {
    ZeroParts(r);
    if n == 0 {
      assert Bits(r, w, 1) == [false];
      assert OddOnes([false]) == OddOnes([]);
    } else {
      OddBeyond(r, r.halve(w), n - 1);
      assert Bits(r, w, n + 1)[1..] == Bits(r, r.halve(w), n);
      assert Bits(r, w, n)[1..] == Bits(r, r.halve(w), n - 1);
    }
  }

  /** A shift keeps the parity of every word when it keeps the parity of one. */
  lemma ShiftKeepsParity<T(!new)>(r: Register<T>, w: T, n: nat)
    requires Linear(r) && Words(r) && Fits(r, w, n) && n > 0
    requires OddWord(r, r.shift(r.one), n)
    ensures OddWord(r, r.shift(w), n) == OddWord(r, w, n)
  {
    var bit := r.Bit(r.low(w));
    assert Halves(r, w);
    OddMix(r, r.shift(bit), r.halve(w), n);
    OddBeyond(r, r.halve(w), n - 1);
    assert Bits(r, w, n)[1..] == Bits(r, r.halve(w), n - 1);
    OddZero(r, n);
    MixZero(r, w, w);
  }

  lemma {:induction false} OddZero<T(!new)>(r: Register<T>, n: nat)
    requires Linear(r) && Words(r)
    ensures !OddWord(r, r.zero, n)
  {
    MixZero(r, r.zero, r.zero);
    OddMix(r, r.zero, r.zero, n);
  }

  // ----- two errors -----

  function Ones(bits: seq<bool>): nat {
    if bits == [] then 0 else (if bits[0] then 1 else 0) + Ones(bits[1..])
  }

  lemma {:induction false} OnesParity(bits: seq<bool>)
    ensures OddOnes(bits) <==> Ones(bits) % 2 == 1
    decreases |bits|
  {
    if bits != [] {
      OnesParity(bits[1..]);
    }
  }

  lemma {:induction false} NoOnes(bits: seq<bool>)
    ensures Ones(bits) == 0 <==> AllFalse(bits)
    decreases |bits|
  {
    if bits != [] {
      NoOnes(bits[1..]);
      assert forall i :: 1 <= i < |bits| ==> bits[i] == bits[1..][i - 1];
      assert AllFalse(bits) ==> AllFalse(bits[1..]);
    }
  }

  /** Zeros, a one at i, d - 1 zeros, a one, zeros. */
  predicate OnesAt(bits: seq<bool>, i: nat, d: nat) {
    && d >= 1 && i + d < |bits|
    && bits[i] && bits[i + d]
    && forall j :: 0 <= j < |bits| && j != i && j != i + d ==> !bits[j]
  }

  lemma {:induction false} FirstOne(bits: seq<bool>) returns (i: nat)
    requires Ones(bits) >= 1
    ensures i < |bits| && bits[i] && (forall j :: 0 <= j < i ==> !bits[j]) && Ones(bits[i + 1..]) == Ones(bits) - 1
    decreases |bits|
  {
    if bits[0] {
      i := 0;
    } else {
      var k := FirstOne(bits[1..]);
      i := k + 1;
      assert bits[1..][k + 1..] == bits[i + 1..];
      assert forall j :: 1 <= j < i ==> bits[j] == bits[1..][j - 1];
    }
  }

  lemma TwoOnesShape(bits: seq<bool>) returns (i: nat, d: nat)
    requires Ones(bits) == 2
    ensures OnesAt(bits, i, d)
  {
    i := FirstOne(bits);
    var rest := bits[i + 1..];
    var k := FirstOne(rest);
    d := k + 1;
    NoOnes(rest[k + 1..]);
    forall j | 0 <= j < |bits| && j != i && j != i + d ensures !bits[j] {
      if j > i + d {
        assert bits[j] == rest[k + 1..][j - i - d - 1];
      } else if j > i {
        assert bits[j] == rest[j - i - 1];
      }
    }
    assert bits[i + d] == rest[k];
  }

  lemma {:induction false} FeedZeros<T(!new)>(r: Register<T>, c: T, bits: seq<bool>)
    requires Linear(r) && AllFalse(bits)
    ensures Feed(r, c, bits) == Shifts(r, c, |bits|)
    decreases |bits|
  {
    if bits != [] {
      MixZero(r, c, c);
      FeedZeros(r, r.shift(c), bits[1..]);
      ShiftsFirst(r, c, |bits|);
    }
  }

  lemma FeedOne<T(!new)>(r: Register<T>, c: T)
    ensures Feed(r, c, [true]) == r.shift(r.mix(c, r.one))
  {
    assert Feed(r, r.shift(r.mix(c, r.one)), [true][1..]) == r.shift(r.mix(c, r.one));
  }

  /** Two ones d apart go unnoticed exactly when d shifts bring the register back to one. */
  lemma TwoOnesUnnoticedIff<T(!new)>(r: Register<T>, bits: seq<bool>, i: nat, d: nat)
    requires Linear(r) && OnesAt(bits, i, d)
    ensures Feed(r, r.zero, bits) == r.zero <==> Shifts(r, r.one, d) == r.one
  {
    var before, between, after := bits[..i], bits[i + 1..i + d], bits[i + d + 1..];
    assert bits == before + ([true] + (between + ([true] + after)));
    FeedAppend(r, r.zero, before, [true] + (between + ([true] + after)));
    ZeroBitsKeepZero(r, r.zero, before);
    FeedAppend(r, r.zero, [true], between + ([true] + after));
    FeedOne(r, r.zero);
    MixZero(r, r.one, r.zero);
    var c := r.shift(r.one);
    FeedAppend(r, c, between, [true] + after);
    FeedZeros(r, c, between);
    ShiftsFirst(r, r.one, d);
    var e := Shifts(r, r.one, d);
    FeedAppend(r, e, [true], after);
    FeedOne(r, e);
    ZeroBitsKeepZero(r, r.shift(r.mix(e, r.one)), after);
    assert LosesNothing(r, r.mix(e, r.one));
    MixZero(r, e, r.one);
  }
}
