/** The float types bit by bit (xla/xla_data.proto): what each code stands for, and that the
    limits used by the conversion test describe exactly these numbers. */
module FloatCodes {
  import opened Arithmetic
  import opened Casts

  /** Which codes are not finite numbers. `Ieee`: the largest exponent code, for infinities and
      NaN. `OnlyNan`: the largest code, for NaN. `NanForNegZero`: the code that would be negative
      zero, for NaN. */
  datatype Specials = Ieee | OnlyNan | NanForNegZero

  /** A sign bit, then `exponentBits` of exponent raised by `excess`, then `fractionBits`. */
  datatype Encoding = Encoding(exponentBits: nat, fractionBits: nat, excess: int, specials: Specials) {
    ghost predicate Valid() { exponentBits >= 2 && fractionBits >= 1 }

    /** The largest exponent code of finite numbers. */
    function Top(): int { if specials.Ieee? then Pow2(exponentBits) - 2 else Pow2(exponentBits) - 1 }
  }

  datatype Code = Code(negative: bool, exponent: nat, fraction: nat)

  ghost predicate IsCode(enc: Encoding, c: Code) {
    c.exponent < Pow2(enc.exponentBits) && c.fraction < Pow2(enc.fractionBits)
  }

  ghost predicate IsNan(enc: Encoding, c: Code) {
    match enc.specials
    case Ieee => c.exponent == Pow2(enc.exponentBits) - 1 && c.fraction != 0
    case OnlyNan => c.exponent == Pow2(enc.exponentBits) - 1 && c.fraction == Pow2(enc.fractionBits) - 1
    case NanForNegZero => c.negative && c.exponent == 0 && c.fraction == 0
  }

  ghost predicate IsInf(enc: Encoding, c: Code) {
    enc.specials.Ieee? && c.exponent == Pow2(enc.exponentBits) - 1 && c.fraction == 0
  }

  /** Significand and exponent: without the hidden bit for exponent code 0, with it otherwise. */
  ghost function Significand(enc: Encoding, c: Code): int {
    if c.exponent == 0 then c.fraction else Pow2(enc.fractionBits) + c.fraction
  }

  function Place(enc: Encoding, c: Code): int {
    (if c.exponent == 0 then 1 else c.exponent) - enc.excess - enc.fractionBits
  }

  /** The units of 2^-bias are fine enough for every code. */
  ghost predicate Fine(enc: Encoding, bias: nat) {
    enc.Valid() && 1 - enc.excess - enc.fractionBits + bias >= 0
  }

  ghost function Signed(negative: bool, n: int): int { if negative then -n else n }

  /** The number that a code stands for. */
  ghost predicate StandsFor(enc: Encoding, bias: nat, c: Code, x: Number)
    requires Fine(enc, bias)
  {
    && IsCode(enc, c) && !IsNan(enc, c)
    && if IsInf(enc, c) then x == (if c.negative then NegInf else PosInf)
       else if c.negative && Significand(enc, c) == 0 then x == NegZero
       else x == Finite(Signed(c.negative, Significand(enc, c)) * Pow2(Place(enc, c) + bias))
  }

  /** Exponent bits, mantissa bits, bias and special codes as the type declarations give them. */
  function EncodingOf(t: PrimitiveType): Encoding
    requires IsFloat(t)
  {
    match t
    case F8E5M2 => Encoding(5, 2, 15, Ieee)
    case F8E4M3FN => Encoding(4, 3, 7, OnlyNan)
    case F8E4M3B11FNUZ => Encoding(4, 3, 11, NanForNegZero)
    case F8E5M2FNUZ => Encoding(5, 2, 16, NanForNegZero)
    case F8E4M3FNUZ => Encoding(4, 3, 8, NanForNegZero)
    case F16 => Encoding(5, 10, 15, Ieee)
    case BF16 => Encoding(8, 7, 127, Ieee)
    case F32 => Encoding(8, 23, 127, Ieee)
    case F64 => Encoding(11, 52, 1023, Ieee)
  }

  /** The limits are those of the code. */
  ghost predicate Describes(f: Format, enc: Encoding) {
    && f.digits == enc.fractionBits + 1 && f.minExponent == 2 - enc.excess && f.maxExponent == enc.Top() - enc.excess + 1
    && f.hasInfinity == enc.specials.Ieee? && f.reserved == (if enc.specials.OnlyNan? then 1 else 0)
    && f.signedZero == !enc.specials.NanForNegZero?
  }

  lemma SmallPowers()
    ensures Pow2(4) == 16 && Pow2(5) == 32 && Pow2(8) == 256 && Pow2(11) == 2048
  {
    assert Pow2(2) == 4;
    Pow2Add(2, 2);
    Pow2Add(4, 1);
    Pow2Add(4, 4);
    Pow2Add(8, 3);
  }

  /** Sign, exponent and fraction fill the width of the type, and every limit that the test uses
      follows from them. */
  lemma FormatsFillCodes(t: PrimitiveType)
    requires IsFloat(t)
    ensures EncodingOf(t).Valid() && Describes(FormatOf(t), EncodingOf(t))
    ensures BitWidth(t) == 1 + EncodingOf(t).exponentBits + EncodingOf(t).fractionBits
    ensures ExponentWidth(t) == EncodingOf(t).exponentBits
  {
    SmallPowers();
  }

  // ---- every code is a number of the format ----

  lemma {:induction false} FiniteCodeHeld(f: Format, enc: Encoding, bias: nat, c: Code)
    requires Sane(f, bias) && Fine(enc, bias) && Describes(f, enc) && IsCode(enc, c) && !IsNan(enc, c) && !IsInf(enc, c)
    ensures FloatHolds(f, bias, Finite(Signed(c.negative, Significand(enc, c)) * Pow2(Place(enc, c) + bias)))
  {
    var m, e := Significand(enc, c), Place(enc, c);
    var n := Signed(c.negative, m) * Pow2(e + bias);
    assert Pow2(f.digits) == 2 * Pow2(enc.fractionBits);
    assert Written(f, bias, n, Signed(c.negative, m), e);
    AbsTimes(Signed(c.negative, m), Pow2(e + bias));
    CodeWithinLargest(f, enc, bias, c);
  }

  lemma {:induction false} CodeWithinLargest(f: Format, enc: Encoding, bias: nat, c: Code)
    requires Sane(f, bias) && Fine(enc, bias) && Describes(f, enc) && IsCode(enc, c) && !IsNan(enc, c) && !IsInf(enc, c)
    ensures Significand(enc, c) * Pow2(Place(enc, c) + bias) <= Largest(f, bias)
  {
    var m, e, top := Significand(enc, c), Place(enc, c) + bias, f.maxExponent - f.digits + bias;
    assert Pow2(f.digits) == 2 * Pow2(enc.fractionBits);
    assert e <= top;
    if e == top {
      assert c.exponent > 0 ==> c.exponent == enc.Top();
      TopSignificand(f, enc, bias, c);
      MulMono(m, Pow2(f.digits) - 1 - f.reserved, Pow2(top));
    } else {
      Pow2Monotone(e, top - 1);
      Pow2Add(f.digits, e);
      Pow2Add(f.digits, top - 1);
      Pow2Monotone(f.digits + e, f.digits + top - 1);
      MulMono(m, Pow2(f.digits), Pow2(e));
      LargestBounds(f, bias);
    }
  }

  lemma TopSignificand(f: Format, enc: Encoding, bias: nat, c: Code)
    requires Sane(f, bias) && Fine(enc, bias) && Describes(f, enc) && IsCode(enc, c) && !IsNan(enc, c) && !IsInf(enc, c)
    requires Place(enc, c) == f.maxExponent - f.digits
    ensures Significand(enc, c) <= Pow2(f.digits) - 1 - f.reserved
  {
    assert Pow2(f.digits) == 2 * Pow2(enc.fractionBits);
    Pow2Monotone(1, enc.fractionBits);
    Pow2Monotone(2, enc.exponentBits);
  }

  lemma {:induction false} CodeHeld(f: Format, enc: Encoding, bias: nat, c: Code, x: Number)
    requires Sane(f, bias) && Fine(enc, bias) && Describes(f, enc) && StandsFor(enc, bias, c, x)
    ensures FloatHolds(f, bias, x)
  {
    if x.Finite? { FiniteCodeHeld(f, enc, bias, c); }
  }

  // ---- every number of the format has a code ----

  /** A number can be written with its leading bit in place, or at the lowest place. */
  lemma {:induction false} Normalized(f: Format, bias: nat, n: int, m: int, e: int) returns (k: int, p: int)
    requires Sane(f, bias) && Written(f, bias, n, m, e) && m != 0
    ensures Written(f, bias, n, k, p) && k != 0 && (m > 0 <==> k > 0)
    ensures Abs(k) >= Pow2(f.digits - 1) || p == Lower(f)
    decreases e - Lower(f)
  {
    if Abs(m) >= Pow2(f.digits - 1) || e == Lower(f) {
      k, p := m, e;
    } else {
      assert Pow2(e + bias) == 2 * Pow2(e - 1 + bias);
      MulAssoc(m, 2, Pow2(e - 1 + bias));
      assert m * 2 == 2 * m;
      assert Written(f, bias, n, 2 * m, e - 1);
      k, p := Normalized(f, bias, n, 2 * m, e - 1);
    }
  }

  /** Within the largest number the place is one of those with a code. */
  lemma {:induction false} PlaceHasCode(f: Format, bias: nat, n: int, m: int, e: int)
    requires Sane(f, bias) && Written(f, bias, n, m, e) && Abs(m) >= Pow2(f.digits - 1) && Abs(n) <= Largest(f, bias)
    ensures e <= f.maxExponent - f.digits
    ensures e == f.maxExponent - f.digits ==> Abs(m) <= Pow2(f.digits) - 1 - f.reserved
  {
    AbsTimes(m, Pow2(e + bias));
    var top := f.maxExponent - f.digits;
    if e > top {
      LargestBounds(f, bias);
      Pow2Add(f.digits - 1, e + bias);
      MulMono(Pow2(f.digits - 1), Abs(m), Pow2(e + bias));
      Pow2Monotone(f.maxExponent + bias, f.digits - 1 + e + bias);
      assert false;
    } else if e == top && Abs(m) > Pow2(f.digits) - 1 - f.reserved {
      MulMono(Pow2(f.digits) - f.reserved, Abs(m), Pow2(e + bias));
      OneLess(Pow2(f.digits) - f.reserved, Pow2(e + bias));
      assert false;
    }
  }

  /** The code of a normalized number. */
  ghost function CodeOf(enc: Encoding, m: int, e: int): Code
    requires enc.Valid() && m != 0 && e + enc.excess + enc.fractionBits >= 1
  {
    if Abs(m) < Pow2(enc.fractionBits) then Code(m < 0, 0, Abs(m))
    else Code(m < 0, e + enc.excess + enc.fractionBits, Abs(m) - Pow2(enc.fractionBits))
  }

  lemma {:induction false} CodeOfInRange(f: Format, enc: Encoding, m: int, e: int)
    requires enc.Valid() && Describes(f, enc) && m != 0 && Abs(m) < Pow2(f.digits) && Lower(f) <= e
    requires Abs(m) >= Pow2(enc.fractionBits) ==>
               e <= f.maxExponent - f.digits && (e == f.maxExponent - f.digits ==> Abs(m) <= Pow2(f.digits) - 1 - f.reserved)
    ensures e + enc.excess + enc.fractionBits >= 1
    ensures IsCode(enc, CodeOf(enc, m, e)) && !IsNan(enc, CodeOf(enc, m, e)) && !IsInf(enc, CodeOf(enc, m, e))
  {
    assert Pow2(f.digits) == 2 * Pow2(enc.fractionBits);
    Pow2Monotone(2, enc.exponentBits);
    Pow2Monotone(1, enc.fractionBits);
  }

  lemma {:induction false} NumberHasCode(f: Format, enc: Encoding, bias: nat, n: int) returns (c: Code)
    requires Sane(f, bias) && Fine(enc, bias) && Describes(f, enc) && FloatHolds(f, bias, Finite(n)) && n != 0
    ensures StandsFor(enc, bias, c, Finite(n))
  {
    var m0, e0 :| Written(f, bias, n, m0, e0);
    var m, e := Normalized(f, bias, n, m0, e0);
    if Abs(m) >= Pow2(f.digits - 1) { PlaceHasCode(f, bias, n, m, e); }
    CodeOfInRange(f, enc, m, e);
    c := CodeOf(enc, m, e);
    assert Significand(enc, c) == Abs(m) && Place(enc, c) == e && Signed(c.negative, Significand(enc, c)) == m;
  }

  lemma ZeroCodes(enc: Encoding, bias: nat)
    requires Fine(enc, bias)
    ensures StandsFor(enc, bias, Code(false, 0, 0), Finite(0))
    ensures !enc.specials.NanForNegZero? ==> StandsFor(enc, bias, Code(true, 0, 0), NegZero)
    ensures enc.specials.Ieee? ==>
              StandsFor(enc, bias, Code(false, Pow2(enc.exponentBits) - 1, 0), PosInf)
              && StandsFor(enc, bias, Code(true, Pow2(enc.exponentBits) - 1, 0), NegInf)
  {
    Pow2Monotone(2, enc.exponentBits);
    Pow2Monotone(1, enc.fractionBits);
  }

  /** The numbers of a float type are exactly those that its codes stand for. */
  lemma {:induction false} NumbersAreCodes(t: PrimitiveType, bias: nat, x: Number)
    requires IsFloat(t) && bias >= MIN_BIAS
    ensures Fine(EncodingOf(t), bias) && !IsComplex(t)
    ensures RealHolds(t, bias, x) <==> exists c :: StandsFor(EncodingOf(t), bias, c, x)
  {
    var f, enc := FormatOf(t), EncodingOf(t);
    FormatsFillCodes(t);
    FormatsSane(t, bias);
    if RealHolds(t, bias, x) {
      ZeroCodes(enc, bias);
      if x.Finite? && x.n != 0 { var c := NumberHasCode(f, enc, bias, x.n); }
    } else if c :| StandsFor(enc, bias, c, x) {
      CodeHeld(f, enc, bias, c, x);
    }
  }

  // ---- the conversion test in terms of codes and integer ranges ----

  /** Every value of a type: integers in two's complement, floats by their codes, complex
      numbers by their parts. */
  ghost predicate IsNumberOf(t: PrimitiveType, bias: nat, x: Number)
    requires bias >= MIN_BIAS && !IsComplex(t)
  {
    if IsFloat(t) then NumbersAreCodes(t, bias, x); exists c :: StandsFor(EncodingOf(t), bias, c, x)
    else x.Finite? && exists k :: IsWhole(x.n, k, bias) && IsIntegerOf(t, k)
  }

  predicate IsIntegerOf(t: PrimitiveType, k: int) {
    match t
    case PRED => 0 <= k <= 1
    case S4 => -8 <= k <= 7
    case U4 => 0 <= k <= 15
    case S8 => -128 <= k <= 127
    case U8 => 0 <= k <= 255
    case S16 => -0x8000 <= k <= 0x7fff
    case U16 => 0 <= k <= 0xffff
    case S32 => -0x8000_0000 <= k <= 0x7fff_ffff
    case U32 => 0 <= k <= 0xffff_ffff
    case S64 => -0x8000_0000_0000_0000 <= k <= 0x7fff_ffff_ffff_ffff
    case U64 => 0 <= k <= 0xffff_ffff_ffff_ffff
    case _ => false
  }

  ghost predicate IsValueOf(t: PrimitiveType, bias: nat, re: Number, im: Number)
    requires bias >= MIN_BIAS
  {
    match t
    case C64 => IsNumberOf(F32, bias, re) && IsNumberOf(F32, bias, im)
    case C128 => IsNumberOf(F64, bias, re) && IsNumberOf(F64, bias, im)
    case _ => IsNumberOf(t, bias, re) && im == Finite(0)
  }

  lemma WidePowers()
    ensures Pow2(3) == 8 && Pow2(7) == 128 && Pow2(15) == 0x8000 && Pow2(16) == 0x1_0000
    ensures Pow2(31) == 0x8000_0000 && Pow2(32) == 0x1_0000_0000
    ensures Pow2(63) == 0x8000_0000_0000_0000 && Pow2(64) == 0x1_0000_0000_0000_0000
  {
    SmallPowers();
    Pow2Add(8, 8);
    Pow2Add(16, 16);
    Pow2Add(32, 32);
  }

  lemma IntegerRanges(t: PrimitiveType, k: int)
    requires !IsFloat(t) && !IsComplex(t)
    ensures InIntRange(IsSigned(t), NonSignBits(t), k) <==> IsIntegerOf(t, k)
  {
    SmallPowers();
    WidePowers();
  }

  lemma {:induction false} NumbersMatch(t: PrimitiveType, bias: nat, x: Number)
    requires bias >= MIN_BIAS && !IsComplex(t)
    ensures RealHolds(t, bias, x) <==> IsNumberOf(t, bias, x)
  {
    if IsFloat(t) {
      NumbersAreCodes(t, bias, x);
    } else if RealHolds(t, bias, x) {
      var k :| IsWhole(x.n, k, bias) && InIntRange(IsSigned(t), NonSignBits(t), k);
      IntegerRanges(t, k);
    } else if IsNumberOf(t, bias, x) {
      var k :| IsWhole(x.n, k, bias) && IsIntegerOf(t, k);
      IntegerRanges(t, k);
    }
  }

  lemma {:induction false} ValuesMatch(t: PrimitiveType, bias: nat, re: Number, im: Number)
    requires bias >= MIN_BIAS
    ensures Holds(t, bias, re, im) <==> IsValueOf(t, bias, re, im)
  {
    if IsComplex(t) {
      NumbersMatch(ComplexComponentType(t), bias, re);
      NumbersMatch(ComplexComponentType(t), bias, im);
    } else {
      NumbersMatch(t, bias, re);
    }
  }

  /** The test says yes exactly when every value of the one type, as its codes are read, is a
      value of the other. */
  lemma {:induction false} CastMeansCodes(from: PrimitiveType, to: PrimitiveType, bias: nat)
    requires bias >= MIN_BIAS
    ensures CastPreservesValues(from, to) <==> forall re, im :: IsValueOf(from, bias, re, im) ==> IsValueOf(to, bias, re, im)
  {
    CastExact(from, to, bias);
    forall re, im
      ensures Holds(from, bias, re, im) <==> IsValueOf(from, bias, re, im)
      ensures Holds(to, bias, re, im) <==> IsValueOf(to, bias, re, im)
    {
      ValuesMatch(from, bias, re, im);
      ValuesMatch(to, bias, re, im);
    }
  }
}
