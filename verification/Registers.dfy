/** The register catalog's value codec: raw words to engineering values, and writes back to raw words. */
module Registers {
  import opened Common
  import InverterClock

  datatype Kind = Uint16 | Int16 | Uint32 | Int32 | DateTimeKind | PackedTimeKind

  /** A catalog entry.  Names, units and other display data play no part here. */
  datatype Register = Register(
    id: string, address: Word, count: Word, kind: Kind, lowWordFirst: bool,
    scale: real, precision: nat, enum: map<int, string>,
    writable: bool, writeMin: real, writeMax: real, writeStep: real)

  /** What a register's words mean; the text a user sees is rendered from this. */
  datatype Value =
    | Integer(i: int)
    | Decimal(d: real)
    | Label(text: string)
    | UnknownLabel(raw: int)
    | TimeOfDay(hour: int, minute: int)
    | InvalidTime(raw: int)
    | Clock(reading: InverterClock.Reading)

  datatype Decoded = Decoded(id: string, raw: int, words: seq<Word>, value: Value)

  /** What a caller may ask to be written: a number, or text together with the numbers it parses to, if any. */
  datatype Input =
    | Number(value: real)
    | Text(text: string, float: Option<real>, integer: Option<int>)

  const TOLERANCE: real := 0.000001

  // ----- numbers -----

  function Abs(x: real): real { if x < 0.0 then -x else x }

  /** Rounding to the nearest integer, halves away from zero. */
  function Round(x: real): int {
    if x >= 0.0 then (x + 0.5).Floor else -((-x + 0.5).Floor)
  }

  /** Conversion of a float to an integer: the fraction is dropped. */
  function Truncate(x: real): int {
    if x >= 0.0 then x.Floor else -((-x).Floor)
  }

  function Pow10(n: nat): (r: real)
    ensures r >= 1.0
  {
    if n == 0 then 1.0 else 10.0 * Pow10(n - 1)
  }

  function RoundTo(x: real, precision: nat): real {
    RoundWith(x, Pow10(precision))
  }

  function RoundWith(x: real, pow: real): real
    requires pow != 0.0
  {
    Ratio(Round(Product(x, pow)) as real, pow)
  }

  function Product(x: real, y: real): real {
    x * y
  }

  function Ratio(x: real, y: real): real
    requires y != 0.0
  {
    x / y
  }

  function Times(n: int, s: real): real {
    Product(n as real, s)
  }

  function ScaleOf(r: Register): real {
    if r.scale == 0.0 then 1.0 else r.scale
  }

  // ----- decoding -----

  function Join(first: Word, second: Word, lowWordFirst: bool): int {
    if lowWordFirst then second * 0x1_0000 + first else first * 0x1_0000 + second
  }

  function Signed(raw: int, width: int): int {
    if raw >= width / 2 then raw - width else raw
  }

  function RawValue(r: Register, words: seq<Word>): Result<int>
    requires |words| >= 1
  {
    match r.kind
    case Uint16 | DateTimeKind | PackedTimeKind => Ok(words[0])
    case Int16 => Ok(Signed(words[0], 0x1_0000))
    case Uint32 => if |words| < 2 then Err else Ok(Join(words[0], words[1], r.lowWordFirst))
    case Int32 => if |words| < 2 then Err else Ok(Signed(Join(words[0], words[1], r.lowWordFirst), 0x1_0000_0000))
  }

  function Scaled(r: Register, raw: int): Value {
    var scaled := Times(raw, ScaleOf(r));
    if r.precision == 0 && Abs(scaled - Round(scaled) as real) < TOLERANCE then Integer(Round(scaled))
    else Decimal(RoundTo(scaled, r.precision))
  }

  function Decode(r: Register, words: seq<Word>): (d: Result<Decoded>)
    requires r.count >= 1
    ensures d.Ok? ==> |words| >= r.count && d.value.id == r.id && d.value.words == words[..r.count]
  {
    if |words| < r.count then Err
    else
      var own := words[..r.count];
      match RawValue(r, own)
      case Err => Err
      case Ok(raw) =>
        if r.kind == DateTimeKind then
          match InverterClock.Decode(own)
          case Err => Err
          case Ok(reading) => Ok(Decoded(r.id, raw, own, Clock(reading)))
        else if r.kind == PackedTimeKind then
          var hour, minute := raw / 0x100, raw % 0x100;
          Ok(Decoded(r.id, raw, own, if hour > 23 || minute > 59 then InvalidTime(raw) else TimeOfDay(hour, minute)))
        else if r.enum != map[] then
          Ok(Decoded(r.id, raw, own, if raw in r.enum then Label(r.enum[raw]) else UnknownLabel(raw)))
        else Ok(Decoded(r.id, raw, own, Scaled(r, raw)))
  }

  /** Two words make a 32-bit value of which each is one half, the first the high one unless the order differs. */
  lemma JoinHalves(first: Word, second: Word, lowWordFirst: bool)
    ensures var joined := Join(first, second, lowWordFirst);
            && 0 <= joined < 0x1_0000_0000
            && joined / 0x1_0000 == (if lowWordFirst then second else first)
            && joined % 0x1_0000 == (if lowWordFirst then first else second)
  {
    var high, low := if lowWordFirst then second else first, if lowWordFirst then first else second;
    DivideJoined(high, low);
  }

  lemma DivideJoined(high: Word, low: Word)
    ensures (high * 0x1_0000 + low) / 0x1_0000 == high && (high * 0x1_0000 + low) % 0x1_0000 == low
  {
  }

  /** Which words decode: as many as the register has, two for a 32-bit value and three for a clock. */
  lemma DecodesIff(r: Register, words: seq<Word>)
    requires r.count >= 1
    ensures Decode(r, words).Ok? <==>
              && |words| >= r.count
              && (r.kind in {Uint32, Int32} ==> r.count >= 2)
              && (r.kind == DateTimeKind ==> r.count >= 3)
  {
  }

  /** The raw value of a decoded register: a single word as it is or, if signed, as the number in range congruent to it;
      two words as the halves of a number, the first the high one unless the order differs, and if signed as the number
      in range congruent to that. */
  lemma DecodedRaw(r: Register, words: seq<Word>)
    requires r.count >= 1 && Decode(r, words).Ok?
    ensures var raw := Decode(r, words).value.raw;
            && (r.kind in {Uint16, DateTimeKind, PackedTimeKind} ==> raw == words[0])
            && (r.kind == Int16 ==> -32768 <= raw <= 32767 && raw % 65536 == words[0])
            && (r.kind in {Uint32, Int32} ==>
                  var high: int := if r.lowWordFirst then words[1] else words[0];
                  var low: int := if r.lowWordFirst then words[0] else words[1];
                  && (r.kind == Uint32 ==> raw / 65536 == high && raw % 65536 == low)
                  && (r.kind == Int32 ==>
                        -2147483648 <= raw <= 2147483647 && raw % 4294967296 == 65536 * high + low))
  {
    var own := words[..r.count];
    assert own[0] == words[0];
    if r.kind in {Uint32, Int32} {
      assert own[1] == words[1];
      JoinHalves(words[0], words[1], r.lowWordFirst);
      SignedCongruent(Join(words[0], words[1], r.lowWordFirst), 0x1_0000_0000);
    } else {
      SignedCongruent(words[0], 0x1_0000);
    }
  }

  /** A signed value is the one in range that the raw value stands for in two's complement. */
  lemma SignedIsTwosComplement(raw: int, width: nat, value: int)
    requires width > 0 && width % 2 == 0 && 0 <= raw < width
    ensures value == Signed(raw, width) <==> -(width / 2) <= value < width / 2 && (value == raw || value == raw - width)
  {
  }

  lemma SignedCongruent(raw: int, width: int)
    requires width in {0x1_0000, 0x1_0000_0000} && 0 <= raw < width
    ensures -(width / 2) <= Signed(raw, width) < width / 2 && Signed(raw, width) % width == raw
  {
    SignedIsTwosComplement(raw, width, Signed(raw, width));
  }

  /** A packed time is shown by its two bytes, an enumerated value by its label. */
  lemma DecodedLabel(r: Register, words: seq<Word>)
    requires r.count >= 1 && Decode(r, words).Ok? && r.kind != DateTimeKind
    ensures var d := Decode(r, words).value;
            && (r.kind == PackedTimeKind ==>
                  d.value == if words[0] / 256 <= 23 && words[0] % 256 <= 59 then
                               TimeOfDay(words[0] / 256, words[0] % 256)
                             else InvalidTime(words[0]))
            && (r.kind != PackedTimeKind && r.enum != map[] ==>
                  && (d.raw in r.enum ==> d.value == Label(r.enum[d.raw]))
                  && (d.raw !in r.enum ==> d.value == UnknownLabel(d.raw)))
  {
    if r.kind == PackedTimeKind {
      assert words[..r.count][0] == words[0];
    }
  }

  /** Any other value is shown by its scale (a missing one being 1) to as many decimals as the register's precision: the
      nearest such number, and of two the one farther from zero.  Without decimals it is an integer, unless it is more
      than the tolerance away from one. */
  lemma DecodedNumber(r: Register, words: seq<Word>, raw: int, x: real)
    requires r.count >= 1 && Decode(r, words).Ok? && r.kind !in {DateTimeKind, PackedTimeKind} && r.enum == map[]
    requires raw == Decode(r, words).value.raw && x == raw as real * (if r.scale == 0.0 then 1.0 else r.scale)
    ensures ShowsNumber(Decode(r, words).value.value, x, r.precision)
  {
    ScaledIs(r, raw, x);
    NumberShown(r, raw, x);
    ValueIsScaled(r, words);
  }

  lemma ScaledIs(r: Register, raw: int, x: real)
    requires x == raw as real * (if r.scale == 0.0 then 1.0 else r.scale)
    ensures x == Times(raw, ScaleOf(r))
  {
  }

  lemma ValueIsScaled(r: Register, words: seq<Word>)
    requires r.count >= 1 && Decode(r, words).Ok? && r.kind !in {DateTimeKind, PackedTimeKind} && r.enum == map[]
    ensures Decode(r, words).value.value == Scaled(r, Decode(r, words).value.raw)
  {
  }

  /** n is the integer nearest to x, of two the one farther from zero. */
  predicate Nearest(n: int, x: real) {
    if x >= 0.0 then n as real - 0.5 <= x < n as real + 0.5 else n as real - 0.5 < x <= n as real + 0.5
  }

  predicate Close(x: real, n: int) {
    -0.000001 < x - n as real < 0.000001
  }

  ghost predicate NearInteger(x: real) {
    exists n :: Close(x, n)
  }

  /** d is x rounded to a multiple of one part in p. */
  ghost predicate Rounds(d: real, x: real, p: real) {
    exists n :: RoundsTo(d, x, p, n)
  }

  predicate RoundsTo(d: real, x: real, p: real, n: int) {
    d * p == n as real && Nearest(n, x * p)
  }

  ghost predicate ShowsNumber(v: Value, x: real, precision: nat) {
    match v
    case Integer(i) => precision == 0 && Close(x, i)
    case Decimal(d) => (precision == 0 ==> !NearInteger(x)) && Rounds(d, x, Power(10.0, precision))
    case _ => false
  }

  function Power(b: real, n: nat): real {
    if n == 0 then 1.0 else Power(b, n - 1) * b
  }

  lemma {:induction false} Pow10IsPower(n: nat)
    ensures Pow10(n) == Power(10.0, n)
  {
    if n > 0 {
      Pow10IsPower(n - 1);
    }
  }

  /** Rounding gives the nearest integer, and no other integer is it. */
  lemma RoundIsNearest(x: real, n: int)
    ensures n == Round(x) <==> Nearest(n, x)
  {
  }

  /** Dropping the fraction gives the last integer on the way from zero. */
  lemma TruncateTowardZero(x: real)
    ensures x >= 0.0 ==> Truncate(x) as real <= x < Truncate(x) as real + 1.0
    ensures x < 0.0 ==> Truncate(x) as real - 1.0 < x <= Truncate(x) as real
  {
  }

  lemma NumberShown(r: Register, raw: int, x: real)
    requires x == Times(raw, ScaleOf(r))
    ensures ShowsNumber(Scaled(r, raw), x, r.precision)
  {
    Pow10IsPower(r.precision);
    IntegerShown(x);
    RoundedShown(x, Pow10(r.precision));
  }

  lemma IntegerShown(x: real)
    ensures NearInteger(x) <==> Abs(x - Round(x) as real) < TOLERANCE
    ensures NearInteger(x) ==> Close(x, Round(x))
  {
    if NearInteger(x) {
      var n :| Close(x, n);
      RoundNear(x, n);
    } else {
      assert !Close(x, Round(x));
    }
  }

  lemma RoundedShown(x: real, p: real)
    requires p != 0.0
    ensures Rounds(RoundWith(x, p), x, p)
  {
    var n := Round(Product(x, p));
    TimesBack(n as real, p);
    RoundIsNearest(x * p, n);
    assert RoundsTo(RoundWith(x, p), x, p, n);
  }

  lemma TimesBack(n: real, p: real)
    requires p != 0.0
    ensures Ratio(n, p) * p == n
  {
  }

  // ----- encoding -----

  /** The bounds and step a written number must respect. */
  predicate Acceptable(r: Register, value: real) {
    && (r.writeMin != 0.0 || r.writeMax != 0.0 ==> r.writeMin <= value <= r.writeMax)
    && (r.writeStep > 0.0 ==> Abs(NearestStep(r, value) - value) <= TOLERANCE)
  }

  function NearestStep(r: Register, value: real): real
    requires r.writeStep > 0.0
  {
    r.writeMin + Times(Round(Ratio(value - r.writeMin, r.writeStep)), r.writeStep)
  }

  function ToWord(raw: int): Result<Word> {
    if 0 <= raw < 0x1_0000 then Ok(raw) else Err
  }

  /** Whether an enumeration accepts the input as this raw value.  A label shared by two raw values stands for
      either; labels are compared exactly. */
  predicate EnumAccepts(enum: map<int, string>, input: Input, raw: int) {
    && raw in enum
    && match input
       case Number(value) => raw == Truncate(value)
       case Text(text, _, integer) =>
         enum[raw] == text || (text !in enum.Values && integer == Some(raw))
  }

  function EncodeNumber(r: Register, input: Input): Result<Word>
    requires r.enum == map[]
  {
    if !r.writable || r.count != 1 then Err
    else
      var number := match input case Number(value) => Some(value) case Text(_, float, _) => float;
      if number.None? || !Acceptable(r, number.value) then Err
      else ToWord(Round(Ratio(number.value, ScaleOf(r))))
  }

  /** The possible outcomes of encoding a write. */
  ghost predicate Encodes(r: Register, input: Input, outcome: Result<Word>) {
    if r.enum == map[] then outcome == EncodeNumber(r, input)
    else if !r.writable || r.count != 1 then outcome == Err
    else if exists raw :: EnumAccepts(r.enum, input, raw) then
      exists raw :: EnumAccepts(r.enum, input, raw) && outcome == ToWord(raw)
    else outcome == Err
  }

  function Digits(n: nat): string {
    (if n < 10 then [] else Digits(n / 10)) + ["0123456789"[n % 10]]
  }

  /** The number that decimal digits stand for. */
  function Denoted(digits: string): int
    decreases |digits|
  {
    if digits == [] then 0
    else 10 * Denoted(digits[..|digits| - 1]) + (digits[|digits| - 1] as int - '0' as int)
  }

  lemma {:induction false} DigitsDenote(n: nat)
    ensures Denoted(Digits(n)) == n
    decreases n
  {
    var before := if n < 10 then [] else Digits(n / 10);
    if n >= 10 {
      DigitsDenote(n / 10);
    }
    DigitValue(n % 10);
    DenotedOneMore(before, "0123456789"[n % 10]);
  }

  lemma DigitValue(k: nat)
    requires k < 10
    ensures "0123456789"[k] as int == '0' as int + k
  {
  }

  lemma DenotedOneMore(digits: string, last: char)
    ensures Denoted(digits + [last]) == 10 * Denoted(digits) + (last as int - '0' as int)
  {
    assert (digits + [last])[..|digits|] == digits;
  }

  /** How a raw value that an enumeration does not know is shown. */
  function UnknownText(raw: int): string {
    "Unknown (" + (if raw < 0 then "-" + Digits(-raw) else Digits(raw)) + ")"
  }

  /** A decoded number or label handed back as a write request. */
  function AsInput(v: Value): Input
    requires v.Integer? || v.Decimal? || v.Label? || v.UnknownLabel?
  {
    match v
    case Integer(i) => Number(i as real)
    case Decimal(d) => Number(d)
    case Label(text) => Text(text, None, None)
    case UnknownLabel(raw) => Text(UnknownText(raw), None, None)
  }

  // ----- exactness -----

  lemma RoundNear(x: real, n: int)
    requires Abs(x - n as real) < 0.5
    ensures Round(x) == n
  {
  }

  /** The register's bounds are multiples of its scale, and its precision shows every multiple exactly. */
  ghost predicate ExactGrid(r: Register, min: int, step: nat, unit: int) {
    var s := ScaleOf(r);
    && r.count == 1 && r.enum == map[] && r.kind in {Uint16, Int16}
    && 0.0 < s
    && r.writeMin == min as real * s
    && r.writeStep == step as real * s
    && s * Pow10(r.precision) == unit as real
  }

  lemma RoundToExact(x: real, s: real, p: real, unit: int, raw: int)
    requires p != 0.0 && s * p == unit as real && x == Times(raw, s)
    ensures RoundWith(x, p) == x
  {
    var y := Product(x, p);
    assert y == (raw * unit) as real by {
      assert y == raw as real * (s * p);
    }
    RoundNear(y, raw * unit);
    DivideBack(x, p, y);
  }

  lemma DivideBack(x: real, p: real, product: real)
    requires p != 0.0 && product == x * p
    ensures Ratio(product, p) == x
  {
    assert (product / p - x) * p == 0.0;
  }

  /** On such a register the decoded number is the raw value times the scale, with nothing lost. */
  lemma DecodedNumberExact(r: Register, min: int, step: nat, unit: int, raw: int)
    requires ExactGrid(r, min, step, unit)
    ensures AsInput(Scaled(r, raw)) == Number(Times(raw, ScaleOf(r)))
  {
    var s, p := ScaleOf(r), Pow10(r.precision);
    var scaled := Times(raw, s);
    RoundToExact(scaled, s, p, unit, raw);
    if r.precision == 0 {
      assert s == s * p == unit as real;
      assert scaled == (raw * unit) as real;
      RoundNear(scaled, raw * unit);
    }
  }

  /** The k-th write step above the minimum, in units of the scale. */
  function GridPoint(min: int, step: nat, k: int): int {
    min + k * step
  }

  ghost predicate OnGrid(min: int, step: nat, raw: int) {
    step == 0 || exists k :: GridPoint(min, step, k) == raw
  }

  /** The nearest step to a multiple of the scale is that multiple itself exactly when it lies on the step grid. */
  lemma StepDistance(s: real, min: int, step: nat, raw: int, base: real, width: real, v: real) returns (q: int)
    requires s > 0.0 && step > 0 && width != 0.0
    requires base == min as real * s && width == step as real * s && v == raw as real * s
    ensures q == Round(Ratio(v - base, width))
    ensures base + Times(q, width) - v == (GridPoint(min, step, q) - raw) as real * s
    ensures GridPoint(min, step, q) == raw <==> OnGrid(min, step, raw)
  {
    var x := Ratio(v - base, width);
    q := Round(x);
    QuotientOfMultiples(s, min, step, raw, width, v - base, x);
    StepsInUnits(s, min, step, raw, base, width, v, q);
    if OnGrid(min, step, raw) {
      var k :| GridPoint(min, step, k) == raw;
      CancelStep(x, k, step);
      RoundNear(x, k);
    }
  }

  lemma StepsInUnits(s: real, min: int, step: nat, raw: int, base: real, width: real, v: real, q: int)
    requires base == min as real * s && width == step as real * s && v == raw as real * s
    ensures base + Times(q, width) - v == (GridPoint(min, step, q) - raw) as real * s
  {
    assert q as real * width == (q * step) as real * s;
  }

  lemma CancelStep(x: real, k: int, step: nat)
    requires step > 0 && x * step as real == (k * step) as real
    ensures x == k as real
  {
    assert (x - k as real) * step as real == 0.0;
  }

  lemma QuotientOfMultiples(s: real, min: int, step: nat, raw: int, width: real, distance: real, x: real)
    requires s > 0.0 && width == step as real * s && distance == raw as real * s - min as real * s
    requires x * width == distance
    ensures x * step as real == (raw - min) as real
  {
    assert (x * step as real - (raw - min) as real) * s == 0.0;
  }

  lemma MultipleOutsideTolerance(n: int, s: real)
    requires s > 0.0
    ensures n == 0 ==> Abs(n as real * s) <= TOLERANCE
    ensures s > TOLERANCE && Abs(n as real * s) <= TOLERANCE ==> n == 0
  {
    if n >= 1 {
      assert n as real * s >= s;
    } else if n <= -1 {
      assert n as real * s <= -s;
    }
  }

  lemma EncodedMultiple(r: Register, raw: int, v: real)
    requires r.enum == map[] && r.writable && r.count == 1 && ScaleOf(r) > 0.0 && v == Times(raw, ScaleOf(r))
    ensures EncodeNumber(r, Number(v)) == if Acceptable(r, v) then ToWord(raw) else Err
  {
    DivideBack(raw as real, ScaleOf(r), v);
    RoundNear(raw as real, raw);
  }

  // ----- what is accepted -----

  /** The value is within the tolerance of this step above the minimum. */
  predicate AtStep(r: Register, value: real, n: int) {
    -0.000001 <= r.writeMin + n as real * r.writeStep - value <= 0.000001
  }

  ghost predicate OnStep(r: Register, value: real) {
    exists n :: AtStep(r, value, n)
  }

  /** The bounds hold unless both are zero, and a step size asks for a step within the tolerance, be it the nearest. */
  lemma AcceptableIff(r: Register, value: real)
    ensures Acceptable(r, value) <==>
              && ((r.writeMin == 0.0 && r.writeMax == 0.0) || r.writeMin <= value <= r.writeMax)
              && (r.writeStep <= 0.0 || OnStep(r, value))
  {
    if r.writeStep > 0.0 {
      NearestIff(r, value);
    }
  }

  lemma NearestIff(r: Register, value: real)
    requires r.writeStep > 0.0
    ensures Abs(NearestStep(r, value) - value) <= TOLERANCE <==> OnStep(r, value)
  {
    var x, step := value - r.writeMin, r.writeStep;
    var q := Ratio(x, step);
    var m := Round(q);
    AtStepIff(r, value, m);
    if OnStep(r, value) {
      var n :| AtStep(r, value, n);
      AtStepIff(r, value, n);
      NoStepIsNearer(x, step, q, m, n, Times(m, step) - x, Times(n, step) - x);
    }
  }

  lemma AtStepIff(r: Register, value: real, n: int)
    ensures AtStep(r, value, n) <==> Abs(Times(n, r.writeStep) - (value - r.writeMin)) <= TOLERANCE
  {
  }

  lemma NoStepIsNearer(x: real, s: real, q: real, m: int, n: int, near: real, far: real)
    requires s > 0.0 && q * s == x && m == Round(q)
    requires near == Times(m, s) - x && far == Times(n, s) - x
    ensures Abs(near) <= Abs(far)
  {
    DifferenceTimes(m as real, q, s, x);
    DifferenceTimes(n as real, q, s, x);
    RoundIsNearest(q, m);
    NearerThan(q, m, n);
    ScaledAbs(m as real - q, n as real - q, s, near, far);
  }

  lemma ScaledAbs(e: real, f: real, s: real, near: real, far: real)
    requires s > 0.0 && Abs(e) <= Abs(f) && near == e * s && far == f * s
    ensures Abs(near) <= Abs(far)
  {
    AbsProduct(e, s);
    AbsProduct(f, s);
    ProductGrows(Abs(f), Abs(e), s);
  }

  lemma DifferenceTimes(m: real, q: real, s: real, x: real)
    requires q * s == x
    ensures (m - q) * s == m * s - x
  {
  }

  lemma NearerThan(q: real, m: int, n: int)
    requires Nearest(m, q)
    ensures Abs(m as real - q) <= Abs(n as real - q)
  {
    if n > m {
      assert n as real >= m as real + 1.0;
    } else if n < m {
      assert n as real <= m as real - 1.0;
    }
  }

  lemma AbsProduct(x: real, s: real)
    requires s >= 0.0
    ensures Abs(x * s) == Abs(x) * s
  {
    if x < 0.0 {
      ProductGrows(0.0, x, s);
    } else {
      ProductGrows(x, 0.0, s);
    }
  }

  /** A number is encoded exactly when the register can be written, holds one word, and finds the number acceptable; the
      word is then the integer nearest to the number divided by the scale, if that is a word.  Text counts as the number
      it parses to, and is refused if it does not. */
  lemma EncodedIff(r: Register, value: real, word: Word, q: real, text: string, integer: Option<int>)
    requires r.enum == map[] && q == value / (if r.scale == 0.0 then 1.0 else r.scale)
    ensures Encodes(r, Number(value), Ok(word)) <==> EncodeNumber(r, Number(value)) == Ok(word)
    ensures EncodeNumber(r, Number(value)) == Ok(word) <==>
              && r.writable && r.count == 1 && Nearest(word, q)
              && ((r.writeMin == 0.0 && r.writeMax == 0.0) || r.writeMin <= value <= r.writeMax)
              && (r.writeStep <= 0.0 || OnStep(r, value))
    ensures EncodeNumber(r, Text(text, Some(value), integer)) == EncodeNumber(r, Number(value))
    ensures EncodeNumber(r, Text(text, None, integer)) == Err
  {
    AcceptableIff(r, value);
    RoundIsNearest(q, word);
  }

  /** An enumerated register takes a number for the value it is cut down to, and text for a label or, where no label
      reads like that, for the integer it parses to. */
  lemma EnumEncodesIff(r: Register, input: Input, outcome: Result<Word>, raw: int)
    requires r.enum != map[] && Encodes(r, input, outcome)
    ensures outcome.Ok? ==> r.writable && r.count == 1 && outcome.value in r.enum
    ensures r.writable && r.count == 1 && input.Number? && raw in r.enum && 0 <= raw < 0x1_0000
            && (if raw == 0 then -1.0 < input.value < 1.0 else raw as real <= input.value < raw as real + 1.0) ==>
              outcome == Ok(raw)
    ensures outcome.Ok? && input.Number? ==>
              if outcome.value == 0 then -1.0 < input.value < 1.0
              else outcome.value as real <= input.value < outcome.value as real + 1.0
    ensures outcome.Ok? && input.Text? && input.text in r.enum.Values ==> r.enum[outcome.value] == input.text
    ensures outcome.Ok? && input.Text? && input.text !in r.enum.Values ==> input.integer == Some(outcome.value)
    ensures r.writable && r.count == 1 && input.Text? && input.text !in r.enum.Values
            && raw in r.enum && 0 <= raw < 0x1_0000 && input.integer == Some(raw) ==>
              outcome == Ok(raw)
  {
    if input.Number? {
      TruncateTowardZero(input.value);
      if raw == Truncate(input.value) && raw in r.enum {
        assert EnumAccepts(r.enum, input, raw);
      }
    } else if raw in r.enum && input.text !in r.enum.Values && input.integer == Some(raw) {
      assert EnumAccepts(r.enum, input, raw);
    }
    forall accepted | EnumAccepts(r.enum, input, accepted) ensures r.enum[accepted] in r.enum.Values {
    }
  }

  /** Writing back a value read from such a register writes the very word that was read, exactly when that word is
      non-negative, within the bounds, and on the step grid; every other word is refused, unless the scale is finer
      than the codec's own tolerance. */
  lemma DecodeThenEncode(r: Register, min: int, step: nat, unit: int, word: Word)
    requires ExactGrid(r, min, step, unit) && r.writable
    ensures Decode(r, [word]).Ok?
    ensures
      var d := Decode(r, [word]).value;
      var bounded := r.writeMin == 0.0 == r.writeMax || r.writeMin <= Times(d.raw, ScaleOf(r)) <= r.writeMax;
      var legal := d.raw >= 0 && bounded && OnGrid(min, step, d.raw);
      && (legal ==> EncodeNumber(r, AsInput(d.value)) == Ok(word))
      && (!legal && ScaleOf(r) > 0.000001 ==> EncodeNumber(r, AsInput(d.value)) == Err)
  {
    assert [word][..1] == [word];
    var raw := Decode(r, [word]).value.raw;
    var v := Times(raw, ScaleOf(r));
    DecodedNumberExact(r, min, step, unit, raw);
    EncodedMultiple(r, raw, v);
    AcceptableMultiple(r, min, step, unit, raw, v);
  }

  lemma AcceptableMultiple(r: Register, min: int, step: nat, unit: int, raw: int, v: real)
    requires ExactGrid(r, min, step, unit) && v == Times(raw, ScaleOf(r))
    ensures
      var legal := (r.writeMin == 0.0 == r.writeMax || r.writeMin <= v <= r.writeMax) && OnGrid(min, step, raw);
      && (legal ==> Acceptable(r, v))
      && (ScaleOf(r) > TOLERANCE && Acceptable(r, v) ==> legal)
  {
    StepPositive(r, min, step, unit);
    if step > 0 {
      OnGridIsAcceptable(r, min, step, raw, v);
    }
  }

  lemma StepPositive(r: Register, min: int, step: nat, unit: int)
    requires ExactGrid(r, min, step, unit)
    ensures r.writeStep > 0.0 <==> step > 0
  {
    if step > 0 {
      assert step as real * ScaleOf(r) >= ScaleOf(r);
    }
  }

  lemma OnGridIsAcceptable(r: Register, min: int, step: nat, raw: int, v: real)
    requires ScaleOf(r) > 0.0 && step > 0 && r.writeStep > 0.0
    requires r.writeMin == min as real * ScaleOf(r) && r.writeStep == step as real * ScaleOf(r)
    requires v == Times(raw, ScaleOf(r))
    ensures OnGrid(min, step, raw) ==> Abs(NearestStep(r, v) - v) <= TOLERANCE
    ensures ScaleOf(r) > TOLERANCE && Abs(NearestStep(r, v) - v) <= TOLERANCE ==> OnGrid(min, step, raw)
  {
    var q := StepDistance(ScaleOf(r), min, step, raw, r.writeMin, r.writeStep, v);
    MultipleOutsideTolerance(GridPoint(min, step, q) - raw, ScaleOf(r));
  }

  /** Any number such a register accepts is read back within the codec's tolerance of what was asked. */
  lemma EncodeThenDecode(r: Register, min: int, step: nat, unit: int, x: real)
    requires ExactGrid(r, min, step, unit) && step > 0
    requires EncodeNumber(r, Number(x)).Ok?
    ensures
      var word := EncodeNumber(r, Number(x)).value;
      && Decode(r, [word]).Ok?
      && (r.kind == Uint16 || word < 0x8000 ==>
            match AsInput(Decode(r, [word]).value.value)
            case Number(y) => -0.000001 <= y - x <= 0.000001
            case _ => false)
  {
    StepPositive(r, min, step, unit);
    var word := EncodeNumber(r, Number(x)).value;
    if ScaleOf(r) > 2.0 * TOLERANCE {
      var n := NearestStepOnGrid(r, min, step, x);
      QuotientNear(ScaleOf(r), n, x);
    } else {
      RoundedQuotient(ScaleOf(r), x);
    }
    DecodedNumberExact(r, min, step, unit, word);
    assert [word][..1] == [word];
  }

  lemma RoundedQuotient(s: real, x: real)
    requires 0.0 < s
    ensures Abs(Times(Round(Ratio(x, s)), s) - x) <= 0.5 * s
  {
    var y := Ratio(x, s);
    var n := Round(y);
    assert -0.5 <= n as real - y <= 0.5;
    RoundingError(n as real, y, s, x);
  }

  lemma RoundingError(n: real, y: real, s: real, x: real)
    requires s > 0.0 && y == Ratio(x, s) && -0.5 <= n - y <= 0.5
    ensures -0.5 * s <= Product(n, s) - x <= 0.5 * s
  {
    var above, below := 0.5 - (n - y), 0.5 + (n - y);
    assert y * s == x;
    assert above * s >= 0.0 && below * s >= 0.0;
    assert above * s == 0.5 * s - (n * s - x);
    assert below * s == 0.5 * s + (n * s - x);
  }

  lemma NearestStepOnGrid(r: Register, min: int, step: nat, x: real) returns (n: int)
    requires r.writeMin == min as real * ScaleOf(r) && r.writeStep == step as real * ScaleOf(r) && r.writeStep > 0.0
    ensures NearestStep(r, x) == Times(n, ScaleOf(r))
  {
    var s, q := ScaleOf(r), Round(Ratio(x - r.writeMin, r.writeStep));
    n := GridPoint(min, step, q);
    assert q as real * (step as real * s) == (q * step) as real * s;
  }

  lemma ProductGrows(x: real, y: real, s: real)
    requires x >= y && s >= 0.0
    ensures x * s >= y * s
  {
    assert (x - y) * s >= 0.0;
  }

  lemma QuotientNear(s: real, n: int, x: real)
    requires s > 2.0 * TOLERANCE && Abs(Times(n, s) - x) <= TOLERANCE
    ensures Round(Ratio(x, s)) == n
  {
    var y := Ratio(x, s);
    var e := n as real - y;
    assert e * s == n as real * s - x by { assert y * s == x; }
    if e >= 0.5 {
      ProductGrows(e, 0.5, s);
    } else if e <= -0.5 {
      ProductGrows(-e, 0.5, s);
    }
    RoundNear(y, n);
  }

  /** On an enumerated register whose labels differ, a known word writes itself back; an unknown one is refused, unless
      some label reads just like the text that is shown for it. */
  lemma EnumRoundTrip(r: Register, word: Word, outcome: Result<Word>)
    requires r.enum != map[] && r.kind == Uint16 && r.count == 1 && r.writable
    requires forall a, b :: a in r.enum && b in r.enum && r.enum[a] == r.enum[b] ==> a == b
    requires Decode(r, [word]).Ok? && Encodes(r, AsInput(Decode(r, [word]).value.value), outcome)
    ensures word in r.enum ==> outcome == Ok(word)
    ensures word !in r.enum && "Unknown (" + Digits(word) + ")" !in r.enum.Values ==> outcome == Err
    ensures word !in r.enum && outcome.Ok? ==>
              outcome.value in r.enum && r.enum[outcome.value] == "Unknown (" + Digits(word) + ")"
  {
    var v := Decode(r, [word]).value.value;
    if word in r.enum {
      assert EnumAccepts(r.enum, AsInput(v), word);
    } else {
      assert forall raw :: raw in r.enum ==> r.enum[raw] in r.enum.Values;
    }
  }
}
