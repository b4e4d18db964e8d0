/** When an element-type conversion loses nothing (xla/primitive_util.h `CastPreservesValues`). */
module Casts {
  import opened Arithmetic

  datatype PrimitiveType =
    | PRED
    | S4 | S8 | S16 | S32 | S64
    | U4 | U8 | U16 | U32 | U64
    | F8E5M2 | F8E4M3FN | F8E4M3B11FNUZ | F8E5M2FNUZ | F8E4M3FNUZ
    | F16 | BF16 | F32 | F64
    | C64 | C128

  predicate IsComplex(t: PrimitiveType) { t.C64? || t.C128? }

  predicate IsFloat(t: PrimitiveType) {
    match t
    case F16 | F32 | F64 | BF16 | F8E5M2 | F8E4M3FN | F8E4M3B11FNUZ | F8E5M2FNUZ | F8E4M3FNUZ => true
    case _ => false
  }

  predicate IsSigned(t: PrimitiveType) {
    match t
    case S4 | S8 | S16 | S32 | S64 => true
    case _ => false
  }

  predicate IsUnsigned(t: PrimitiveType) {
    match t
    case U4 | U8 | U16 | U32 | U64 => true
    case _ => false
  }

  predicate IsIntegral(t: PrimitiveType) { IsSigned(t) || IsUnsigned(t) }

  function ComplexComponentType(t: PrimitiveType): PrimitiveType
    requires IsComplex(t)
  {
    if t == C64 then F32 else F64
  }

  function BitWidth(t: PrimitiveType): nat {
    match t
    case PRED => 1
    case S4 | U4 => 4
    case S8 | U8 | F8E5M2 | F8E4M3FN | F8E4M3B11FNUZ | F8E5M2FNUZ | F8E4M3FNUZ => 8
    case S16 | U16 | F16 | BF16 => 16
    case S32 | U32 | F32 => 32
    case S64 | U64 | F64 | C64 => 64
    case C128 => 128
  }

  /** numeric_limits of the native float types: digits, min_exponent, max_exponent and
      has_infinity; `reserved` counts the largest codes that stand for NaN instead. The FNUZ
      types use the code of negative zero for NaN. */
  datatype Format = Format(digits: nat, minExponent: int, maxExponent: int, hasInfinity: bool, reserved: nat, signedZero: bool)

  function FormatOf(t: PrimitiveType): Format
    requires IsFloat(t)
  {
    match t
    case F8E5M2 => Format(3, -13, 16, true, 0, true)
    case F8E4M3FN => Format(4, -5, 9, false, 1, true)
    case F8E4M3B11FNUZ => Format(4, -9, 5, false, 0, false)
    case F8E5M2FNUZ => Format(3, -14, 16, false, 0, false)
    case F8E4M3FNUZ => Format(4, -6, 8, false, 0, false)
    case F16 => Format(11, -13, 16, true, 0, true)
    case BF16 => Format(8, -125, 128, true, 0, true)
    case F32 => Format(24, -125, 128, true, 0, true)
    case F64 => Format(53, -1021, 1024, true, 0, true)
  }

  function SignificandWidth(t: PrimitiveType): nat requires IsFloat(t) { FormatOf(t).digits }
  function UnderflowExponent(t: PrimitiveType): int requires IsFloat(t) { FormatOf(t).minExponent }
  function OverflowExponent(t: PrimitiveType): int requires IsFloat(t) { FormatOf(t).maxExponent }
  predicate HasInfinity(t: PrimitiveType) { IsFloat(t) && FormatOf(t).hasInfinity }

  function ExponentWidth(t: PrimitiveType): int
    requires IsFloat(t)
  {
    BitWidth(t) - ((SignificandWidth(t) - 1) + 1)
  }

  function NonSignBits(t: PrimitiveType): int { if IsSigned(t) then BitWidth(t) - 1 else BitWidth(t) }

  /** F -> F: exponent and significand are preserved, and so are infinities. */
  predicate FloatTest(from: PrimitiveType, to: PrimitiveType)
    requires IsFloat(from) && IsFloat(to)
  {
    && (!HasInfinity(from) || HasInfinity(to))
    && SignificandWidth(from) <= SignificandWidth(to)
    && ExponentWidth(from) <= ExponentWidth(to)
    && UnderflowExponent(from) - SignificandWidth(from) >= UnderflowExponent(to) - SignificandWidth(to)
    && OverflowExponent(from) <= OverflowExponent(to)
  }

  /** I -> F and I -> I. */
  predicate IntTest(from: PrimitiveType, to: PrimitiveType)
    requires IsIntegral(from)
  {
    if IsFloat(to) then NonSignBits(from) <= SignificandWidth(to) && BitWidth(from) - 1 < OverflowExponent(to)
    else if IsSigned(from) && IsUnsigned(to) then false
    else NonSignBits(from) <= NonSignBits(to)
  }

  predicate CastPreservesValues(from: PrimitiveType, to: PrimitiveType)
    decreases if IsComplex(to) then 1 else 0
  {
    if from == to then true
    else if from == PRED then true
    else if to == PRED then false
    else if IsComplex(to) then
      CastPreservesValues(if IsComplex(from) then ComplexComponentType(from) else from, ComplexComponentType(to))
    else if IsComplex(from) then false
    else if IsFloat(from) && IsFloat(to) then FloatTest(from, to)
    else if !IsIntegral(from) then false
    else IntTest(from, to)
  }

  // ---- what the types can hold ----

  /** A finite number counted in units of 2^-bias, negative zero, or an infinity. Any bias of at least 1074
      makes every finite number of every type here a whole number of units. */
  datatype Number = Finite(n: int) | NegZero | PosInf | NegInf

  const MIN_BIAS: nat := 1074

  function Pow2(n: nat): (p: int)
    ensures p > 0
  {
    if n == 0 then 1 else 2 * Pow2(n - 1)
  }

  function Abs(x: int): nat { if x < 0 then -x else x }

  /** Exponent of the last place of the smallest numbers. */
  function Lower(f: Format): int { f.minExponent - f.digits }

  /** The constraints all formats above meet. */
  ghost predicate Sane(f: Format, bias: nat) {
    f.digits >= 2 && f.reserved <= 1 && f.maxExponent > f.digits && 0 <= Lower(f) + bias && Lower(f) <= 0
  }

  /** The largest finite number. */
  ghost function Largest(f: Format, bias: nat): int
    requires Sane(f, bias)
  {
    (Pow2(f.digits) - 1 - f.reserved) * Pow2(f.maxExponent - f.digits + bias)
  }

  /** `n` units are m * 2^e with a significand of `digits` bits and no place below the lowest. */
  ghost predicate Written(f: Format, bias: nat, n: int, m: int, e: int) {
    && Sane(f, bias) && Lower(f) <= e && Abs(m) < Pow2(f.digits)
    && n == m * Pow2(e + bias)
  }

  ghost predicate FloatHolds(f: Format, bias: nat, x: Number)
    requires Sane(f, bias)
  {
    match x
    case Finite(n) => Abs(n) <= Largest(f, bias) && exists m, e :: Written(f, bias, n, m, e)
    case NegZero => f.signedZero
    case _ => f.hasInfinity
  }

  /** Whole numbers of `bits` non-sign bits, as units. */
  ghost predicate IntHolds(signed: bool, bits: nat, bias: nat, x: Number) {
    x.Finite? && exists k :: IsWhole(x.n, k, bias) && InIntRange(signed, bits, k)
  }

  ghost predicate IsWhole(n: int, k: int, bias: nat) { n == k * Pow2(bias) }

  ghost predicate InIntRange(signed: bool, bits: nat, k: int) {
    (if signed then -Pow2(bits) else 0) <= k < Pow2(bits)
  }

  lemma FormatsSane(t: PrimitiveType, bias: nat)
    requires IsFloat(t) && bias >= MIN_BIAS
    ensures Sane(FormatOf(t), bias)
  {}

  /** The numbers of a non-complex type. */
  ghost predicate RealHolds(t: PrimitiveType, bias: nat, x: Number)
    requires bias >= MIN_BIAS && !IsComplex(t)
  {
    if IsFloat(t) then FormatsSane(t, bias); FloatHolds(FormatOf(t), bias, x)
    else IntHolds(IsSigned(t), NonSignBits(t), bias, x)
  }

  /** A value is a real and an imaginary part; only complex types have the latter. */
  ghost predicate Holds(t: PrimitiveType, bias: nat, re: Number, im: Number)
    requires bias >= MIN_BIAS
  {
    if IsComplex(t) then RealHolds(ComplexComponentType(t), bias, re) && RealHolds(ComplexComponentType(t), bias, im)
    else RealHolds(t, bias, re) && im == Finite(0)
  }

  /** Every value of `from` is a value of `to`. */
  ghost predicate Embeds(from: PrimitiveType, to: PrimitiveType, bias: nat)
    requires bias >= MIN_BIAS
  {
    forall re, im :: Holds(from, bias, re, im) ==> Holds(to, bias, re, im)
  }

  ghost predicate RealEmbeds(from: PrimitiveType, to: PrimitiveType, bias: nat)
    requires bias >= MIN_BIAS && !IsComplex(from) && !IsComplex(to)
  {
    forall x :: RealHolds(from, bias, x) ==> RealHolds(to, bias, x)
  }

  // ---- powers of two ----

  lemma {:induction false} Pow2Add(a: nat, b: nat)
    ensures Pow2(a + b) == Pow2(a) * Pow2(b)
  {
    if a > 0 {
      Pow2Add(a - 1, b);
      MulAssoc(2, Pow2(a - 1), Pow2(b));
      assert Pow2(a + b) == 2 * Pow2(a - 1 + b);
    }
  }

  lemma {:induction false} Pow2Monotone(a: nat, b: nat)
    requires a <= b
    ensures Pow2(a) <= Pow2(b)
    ensures a < b ==> 2 * Pow2(a) <= Pow2(b)
  {
    if a < b { Pow2Monotone(a, b - 1); }
  }

  lemma MulMono(a: int, b: int, c: nat)
    requires a <= b
    ensures a * c <= b * c
  {}

  lemma MulEqual(a: int, b: int, c: nat)
    requires c > 0 && a * c == b * c
    ensures a == b
  {
    if b + 1 <= a { MulMono(b + 1, a, c); }
    if a + 1 <= b { MulMono(a + 1, b, c); }
  }

  lemma AbsTimes(m: int, p: nat)
    ensures Abs(m * p) == Abs(m) * p
  {}

  /** 2^maxExponent bounds every number strictly; its half and every short integer fit. */
  lemma LargestBounds(f: Format, bias: nat)
    requires Sane(f, bias)
    ensures Largest(f, bias) < Pow2(f.maxExponent + bias)
    ensures Pow2(f.maxExponent - 1 + bias) <= Largest(f, bias)
    ensures Pow2(f.digits + bias) <= Largest(f, bias)
  {
    var d, w := Pow2(f.digits), f.maxExponent - f.digits + bias;
    var p := Pow2(w);
    Pow2Add(f.digits, w);
    MulMono(d - 1 - f.reserved, d - 1, p);
    assert (d - 1) * p == d * p - p;
    Pow2Add(f.digits - 1, w);
    Pow2Monotone(1, f.digits - 1);
    MulMono(Pow2(f.digits - 1), d - 1 - f.reserved, p);
    Pow2Monotone(f.digits + bias, f.maxExponent - 1 + bias);
  }

  // ---- floats into floats ----

  lemma OneLess(a: int, w: int)
    ensures (a - 1) * w == a * w - w
  {}

  lemma LargestGrows(f: Format, g: Format, bias: nat)
    requires Sane(f, bias) && Sane(g, bias) && g.reserved == 0
    requires f.digits <= g.digits && f.maxExponent <= g.maxExponent
    ensures Largest(f, bias) <= Largest(g, bias)
  {
    if f.maxExponent < g.maxExponent {
      LargestBounds(f, bias);
      LargestBounds(g, bias);
      Pow2Monotone(f.maxExponent + bias, g.maxExponent - 1 + bias);
    } else {
      var wf, wg := f.maxExponent - f.digits + bias, g.maxExponent - g.digits + bias;
      Pow2Add(f.digits, wf);
      Pow2Add(g.digits, wg);
      Pow2Monotone(wg, wf);
      OneLess(Pow2(f.digits), Pow2(wf));
      OneLess(Pow2(g.digits), Pow2(wg));
      MulMono(Pow2(f.digits) - 1 - f.reserved, Pow2(f.digits) - 1, Pow2(wf));
    }
  }

  lemma FloatInFloat(f: Format, g: Format, bias: nat, x: Number)
    requires Sane(f, bias) && Sane(g, bias) && g.reserved == 0 && FloatHolds(f, bias, x)
    requires (!f.hasInfinity || g.hasInfinity) && f.digits <= g.digits && Lower(f) >= Lower(g) && f.maxExponent <= g.maxExponent
    requires f.signedZero ==> g.signedZero
    ensures FloatHolds(g, bias, x)
  {
    if x.Finite? {
      var m, e :| Written(f, bias, x.n, m, e);
      Pow2Monotone(f.digits, g.digits);
      assert Written(g, bias, x.n, m, e);
      LargestGrows(f, g, bias);
    }
  }

  /** 2^digits + 1 needs one more bit than the format has. */
  lemma TooManyBits(g: Format, bias: nat, n: int, m: int, e: int)
    requires n == (Pow2(g.digits) + 1) * Pow2(bias)
    ensures !Written(g, bias, n, m, e)
  {
    if Written(g, bias, n, m, e) {
      var top := Pow2(g.digits) + 1;
      if e <= 0 {
        FinerPlace(top, m, -e, e + bias);
        assert false;
      } else {
        CoarserPlace(g.digits, m, e, bias);
        assert false;
      }
    }
  }

  lemma FinerPlace(top: int, m: int, d: nat, w: nat)
    requires top > 0 && m * Pow2(w) == top * Pow2(d + w)
    ensures m >= top
  {
    Pow2Add(d, w);
    assert top * (Pow2(d) * Pow2(w)) == (top * Pow2(d)) * Pow2(w);
    MulEqual(m, top * Pow2(d), Pow2(w));
    MulMono(1, Pow2(d), top);
  }

  lemma EvenOdd(a: int, b: int)
    ensures 2 * a != 2 * b + 1
  {}

  lemma OddIsNotEven(m: int, h: int, r: int, q: nat)
    requires q > 0
    ensures (m * (2 * h)) * q != (2 * r + 1) * q
  {
    if (m * (2 * h)) * q == (2 * r + 1) * q {
      MulEqual(m * (2 * h), 2 * r + 1, q);
      EvenOdd(m * h, r);
      assert false;
    }
  }

  lemma CoarserPlace(digits: nat, m: int, e: nat, bias: nat)
    requires digits > 0 && e > 0
    ensures m * Pow2(e + bias) != (Pow2(digits) + 1) * Pow2(bias)
  {
    Pow2Add(e, bias);
    MulAssoc(m, Pow2(e), Pow2(bias));
    OddIsNotEven(m, Pow2(e - 1), Pow2(digits - 1), Pow2(bias));
  }

  lemma ShortIntegerHeld(f: Format, bias: nat, k: int)
    requires Sane(f, bias) && Abs(k) < Pow2(f.digits)
    ensures FloatHolds(f, bias, Finite(k * Pow2(bias)))
  {
    var n := k * Pow2(bias);
    assert Written(f, bias, n, k, 0);
    AbsTimes(k, Pow2(bias));
    MulMono(Abs(k), Pow2(f.digits), Pow2(bias));
    Pow2Add(f.digits, bias);
    LargestBounds(f, bias);
  }

  lemma PowerHeld(f: Format, bias: nat, e: int)
    requires Sane(f, bias) && Lower(f) <= e < f.maxExponent
    ensures FloatHolds(f, bias, Finite(Pow2(e + bias))) && FloatHolds(f, bias, Finite(-Pow2(e + bias)))
  {
    Pow2Monotone(1, f.digits);
    assert Written(f, bias, Pow2(e + bias), 1, e) && Written(f, bias, -Pow2(e + bias), -1, e);
    Pow2Monotone(e + bias, f.maxExponent - 1 + bias);
    LargestBounds(f, bias);
  }

  /** Each way the format test can fail names a number that is lost. */
  lemma FloatLost(f: Format, g: Format, bias: nat) returns (x: Number)
    requires Sane(f, bias) && Sane(g, bias)
    requires (f.hasInfinity && !g.hasInfinity) || (f.signedZero && !g.signedZero)
             || f.digits > g.digits || Lower(f) < Lower(g) || f.maxExponent > g.maxExponent
    ensures FloatHolds(f, bias, x) && !FloatHolds(g, bias, x)
  {
    if f.hasInfinity && !g.hasInfinity {
      x := PosInf;
    } else if f.signedZero && !g.signedZero {
      x := NegZero;
    } else if f.digits > g.digits {
      var k := Pow2(g.digits) + 1;
      Pow2Monotone(g.digits, f.digits);
      Pow2Monotone(1, g.digits);
      ShortIntegerHeld(f, bias, k);
      x := Finite(k * Pow2(bias));
      forall m, e ensures !Written(g, bias, x.n, m, e) { TooManyBits(g, bias, x.n, m, e); }
    } else if Lower(f) < Lower(g) {
      PowerHeld(f, bias, Lower(f));
      x := Finite(Pow2(Lower(f) + bias));
      forall m, e ensures !Written(g, bias, x.n, m, e) { TooSmall(g, bias, Lower(f), m, e); }
    } else {
      PowerHeld(f, bias, f.maxExponent - 1);
      x := Finite(Pow2(f.maxExponent - 1 + bias));
      LargestBounds(g, bias);
      Pow2Monotone(g.maxExponent + bias, f.maxExponent - 1 + bias);
    }
  }

  /** For any two float formats, the target's largest codes being numbers: every number of one
      is a number of the other if and only if significand, range, infinity and negative zero
      are preserved. */
  lemma FormatsExact(f: Format, g: Format, bias: nat)
    requires Sane(f, bias) && Sane(g, bias) && g.reserved == 0
    ensures (forall x :: FloatHolds(f, bias, x) ==> FloatHolds(g, bias, x)) <==>
              && (f.hasInfinity ==> g.hasInfinity) && (f.signedZero ==> g.signedZero)
              && f.digits <= g.digits && Lower(f) >= Lower(g) && f.maxExponent <= g.maxExponent
  {
    if && (f.hasInfinity ==> g.hasInfinity) && (f.signedZero ==> g.signedZero)
       && f.digits <= g.digits && Lower(f) >= Lower(g) && f.maxExponent <= g.maxExponent {
      forall x | FloatHolds(f, bias, x) ensures FloatHolds(g, bias, x) { FloatInFloat(f, g, bias, x); }
    } else {
      var x := FloatLost(f, g, bias);
    }
  }

  lemma TooSmall(g: Format, bias: nat, low: int, m: int, e: int)
    requires 0 <= low + bias && low < Lower(g)
    ensures !Written(g, bias, Pow2(low + bias), m, e)
  {
    if Written(g, bias, Pow2(low + bias), m, e) {
      Pow2Monotone(low + bias, e + bias);
      if m >= 1 { MulMono(1, m, Pow2(e + bias)); } else { MulMono(m, 0, Pow2(e + bias)); }
      assert false;
    }
  }

  // ---- integers ----

  lemma IntInFloat(signed: bool, bits: nat, g: Format, bias: nat, x: Number)
    requires Sane(g, bias) && IntHolds(signed, bits, bias, x) && bits <= g.digits
    ensures FloatHolds(g, bias, x)
  {
    var k :| IsWhole(x.n, k, bias) && InIntRange(signed, bits, k);
    Pow2Monotone(bits, g.digits);
    if Abs(k) < Pow2(g.digits) {
      ShortIntegerHeld(g, bias, k);
    } else {
      LeastSignedHeld(g, bias, k);
    }
  }

  /** The least signed value is a power of two and needs only one bit. */
  lemma LeastSignedHeld(g: Format, bias: nat, k: int)
    requires Sane(g, bias) && k == -Pow2(g.digits)
    ensures FloatHolds(g, bias, Finite(k * Pow2(bias)))
  {
    Pow2Add(g.digits, bias);
    PowerHeld(g, bias, g.digits);
    NegTimes(Pow2(g.digits), Pow2(bias));
  }

  lemma NegTimes(a: int, b: int)
    ensures (-a) * b == -(a * b)
  {}

  lemma IntHeld(signed: bool, bits: nat, bias: nat, k: int)
    requires InIntRange(signed, bits, k)
    ensures IntHolds(signed, bits, bias, Finite(k * Pow2(bias)))
  {
    assert IsWhole(k * Pow2(bias), k, bias);
  }

  lemma WideIntLost(signed: bool, bits: nat, g: Format, bias: nat) returns (x: Number)
    requires Sane(g, bias) && bits > g.digits
    ensures IntHolds(signed, bits, bias, x) && !FloatHolds(g, bias, x)
  {
    var k := Pow2(g.digits) + 1;
    Pow2Monotone(g.digits, bits);
    Pow2Monotone(1, g.digits);
    IntHeld(signed, bits, bias, k);
    x := Finite(k * Pow2(bias));
    forall m, e ensures !Written(g, bias, x.n, m, e) { TooManyBits(g, bias, x.n, m, e); }
  }

  lemma IntInInt(fromSigned: bool, fromBits: nat, toSigned: bool, toBits: nat, bias: nat, x: Number)
    requires IntHolds(fromSigned, fromBits, bias, x) && fromBits <= toBits && (fromSigned ==> toSigned)
    ensures IntHolds(toSigned, toBits, bias, x)
  {
    var k :| IsWhole(x.n, k, bias) && InIntRange(fromSigned, fromBits, k);
    Pow2Monotone(fromBits, toBits);
    IntHeld(toSigned, toBits, bias, k);
  }

  lemma NotAnInt(signed: bool, bits: nat, bias: nat, k: int)
    requires !InIntRange(signed, bits, k)
    ensures !IntHolds(signed, bits, bias, Finite(k * Pow2(bias)))
  {
    if IntHolds(signed, bits, bias, Finite(k * Pow2(bias))) {
      var j :| IsWhole(k * Pow2(bias), j, bias) && InIntRange(signed, bits, j);
      MulEqual(k, j, Pow2(bias));
      assert false;
    }
  }

  lemma HalfIsNotWhole(k: int, bias: nat)
    requires bias > 0
    ensures !IsWhole(Pow2(bias - 1), k, bias)
  {
    assert k * (2 * Pow2(bias - 1)) == (2 * k) * Pow2(bias - 1);
    if (2 * k) * Pow2(bias - 1) == 1 * Pow2(bias - 1) {
      MulEqual(2 * k, 1, Pow2(bias - 1));
      assert false;
    }
  }

  /** One half is a number of every float type and of no integer type. */
  lemma HalfLost(f: Format, signed: bool, bits: nat, bias: nat)
    requires Sane(f, bias) && bias > 0 && Lower(f) < 0
    ensures FloatHolds(f, bias, Finite(Pow2(bias - 1))) && !IntHolds(signed, bits, bias, Finite(Pow2(bias - 1)))
  {
    PowerHeld(f, bias, -1);
    if IntHolds(signed, bits, bias, Finite(Pow2(bias - 1))) {
      var k :| IsWhole(Pow2(bias - 1), k, bias) && InIntRange(signed, bits, k);
      HalfIsNotWhole(k, bias);
      assert false;
    }
  }

  // ---- the decision procedure is exact ----

  /** On the types at hand the exponent-width clause follows from the others, and no other
      type passes the test into the one whose top codes are taken by NaN. */
  lemma FloatTestExact(from: PrimitiveType, to: PrimitiveType)
    requires IsFloat(from) && IsFloat(to) && from != to
    ensures FloatTest(from, to) ==> FormatOf(to).reserved == 0 && (FormatOf(from).signedZero ==> FormatOf(to).signedZero)
    ensures FloatTest(from, to) <==>
      var f, g := FormatOf(from), FormatOf(to);
      (!f.hasInfinity || g.hasInfinity) && f.digits <= g.digits && Lower(f) >= Lower(g) && f.maxExponent <= g.maxExponent
  {}

  lemma RealCastExact(from: PrimitiveType, to: PrimitiveType, bias: nat)
    requires bias >= MIN_BIAS && !IsComplex(from) && !IsComplex(to)
    ensures CastPreservesValues(from, to) <==> RealEmbeds(from, to, bias)
  {
    if CastPreservesValues(from, to) {
      RealCastEmbeds(from, to, bias);
    } else {
      var x := RealCastLoses(from, to, bias);
    }
  }

  lemma RealCastEmbeds(from: PrimitiveType, to: PrimitiveType, bias: nat)
    requires bias >= MIN_BIAS && !IsComplex(from) && !IsComplex(to) && CastPreservesValues(from, to)
    ensures RealEmbeds(from, to, bias)
  {
    if from != to {
      forall x | RealHolds(from, bias, x) ensures RealHolds(to, bias, x) { RealCastKeeps(from, to, bias, x); }
    }
  }

  /** What the test says of the widths of the integer types and PRED. */
  lemma IntToFloatWidths(from: PrimitiveType, to: PrimitiveType)
    requires !IsComplex(from) && !IsFloat(from) && IsFloat(to)
    ensures CastPreservesValues(from, to) <==> NonSignBits(from) <= FormatOf(to).digits
  {
    SignificandsFit(to);
    WholeWidths(from);
  }

  lemma SignificandsFit(t: PrimitiveType)
    requires IsFloat(t)
    ensures 1 < SignificandWidth(t) == FormatOf(t).digits < OverflowExponent(t) && !IsComplex(t) && t != PRED
  {}

  lemma WholeWidths(t: PrimitiveType)
    requires !IsComplex(t) && !IsFloat(t)
    ensures BitWidth(t) - 1 <= NonSignBits(t) && if t == PRED then NonSignBits(t) == 1 else IsIntegral(t)
  {}

  lemma IntToIntWidths(from: PrimitiveType, to: PrimitiveType)
    requires !IsComplex(from) && !IsFloat(from) && !IsComplex(to) && !IsFloat(to) && from != to
    ensures CastPreservesValues(from, to) <==> NonSignBits(from) <= NonSignBits(to) && (IsSigned(from) ==> IsSigned(to))
  {}

  lemma FromFloat(from: PrimitiveType, to: PrimitiveType)
    requires IsFloat(from) && !IsComplex(to) && from != to
    ensures CastPreservesValues(from, to) <==> IsFloat(to) && FloatTest(from, to)
  {}

  lemma RealCastKeeps(from: PrimitiveType, to: PrimitiveType, bias: nat, x: Number)
    requires bias >= MIN_BIAS && !IsComplex(from) && !IsComplex(to) && from != to
    requires CastPreservesValues(from, to) && RealHolds(from, bias, x)
    ensures RealHolds(to, bias, x)
  {
    if IsFloat(from) {
      FromFloat(from, to);
      FloatCastKeeps(from, to, bias, x);
    } else {
      if IsFloat(to) {
        IntToFloatWidths(from, to);
        FormatsSane(to, bias);
        IntInFloat(IsSigned(from), NonSignBits(from), FormatOf(to), bias, x);
      } else {
        IntToIntWidths(from, to);
        IntInInt(IsSigned(from), NonSignBits(from), IsSigned(to), NonSignBits(to), bias, x);
      }
    }
  }

  lemma FloatCastKeeps(from: PrimitiveType, to: PrimitiveType, bias: nat, x: Number)
    requires bias >= MIN_BIAS && IsFloat(from) && IsFloat(to) && from != to
    requires FloatTest(from, to) && RealHolds(from, bias, x)
    ensures RealHolds(to, bias, x)
  {
    FormatsSane(from, bias);
    FormatsSane(to, bias);
    FloatTestExact(from, to);
    FloatInFloat(FormatOf(from), FormatOf(to), bias, x);
  }

  lemma RealCastLoses(from: PrimitiveType, to: PrimitiveType, bias: nat) returns (x: Number)
    requires bias >= MIN_BIAS && !IsComplex(from) && !IsComplex(to) && !CastPreservesValues(from, to)
    ensures RealHolds(from, bias, x) && !RealHolds(to, bias, x)
  {
    if IsFloat(from) {
      FromFloat(from, to);
      x := FloatCastLoses(from, to, bias);
    } else {
      x := IntCastLoses(from, to, bias);
    }
  }

  lemma FloatCastLoses(from: PrimitiveType, to: PrimitiveType, bias: nat) returns (x: Number)
    requires bias >= MIN_BIAS && IsFloat(from) && !IsComplex(to) && from != to && !(IsFloat(to) && FloatTest(from, to))
    ensures RealHolds(from, bias, x) && !RealHolds(to, bias, x)
  {
    FormatsSane(from, bias);
    if IsFloat(to) {
      FormatsSane(to, bias);
      FloatTestExact(from, to);
      x := FloatLost(FormatOf(from), FormatOf(to), bias);
    } else {
      HalfLost(FormatOf(from), IsSigned(to), NonSignBits(to), bias);
      x := Finite(Pow2(bias - 1));
    }
  }

  lemma IntCastLoses(from: PrimitiveType, to: PrimitiveType, bias: nat) returns (x: Number)
    requires bias >= MIN_BIAS && !IsComplex(from) && !IsFloat(from) && !IsComplex(to) && !CastPreservesValues(from, to)
    ensures RealHolds(from, bias, x) && !RealHolds(to, bias, x)
  {
    if IsFloat(to) {
      IntToFloatWidths(from, to);
      FormatsSane(to, bias);
      x := WideIntLost(IsSigned(from), NonSignBits(from), FormatOf(to), bias);
    } else {
      IntToIntWidths(from, to);
      x := IntRangeLost(IsSigned(from), NonSignBits(from), IsSigned(to), NonSignBits(to), bias);
    }
  }

  lemma IntRangeLost(fromSigned: bool, fromBits: nat, toSigned: bool, toBits: nat, bias: nat) returns (x: Number)
    requires fromBits > toBits || (fromSigned && !toSigned)
    ensures IntHolds(fromSigned, fromBits, bias, x) && !IntHolds(toSigned, toBits, bias, x)
  {
    if fromBits > toBits {
      var k := Pow2(toBits);
      Pow2Monotone(toBits, fromBits);
      IntHeld(fromSigned, fromBits, bias, k);
      NotAnInt(toSigned, toBits, bias, k);
      x := Finite(k * Pow2(bias));
    } else {
      IntHeld(fromSigned, fromBits, bias, -1);
      NotAnInt(toSigned, toBits, bias, -1);
      x := Finite(-1 * Pow2(bias));
    }
  }

  lemma ZeroHeld(t: PrimitiveType, bias: nat)
    requires bias >= MIN_BIAS && !IsComplex(t)
    ensures RealHolds(t, bias, Finite(0))
  {
    if IsFloat(t) {
      FormatsSane(t, bias);
      ShortIntegerHeld(FormatOf(t), bias, 0);
    } else {
      IntHeld(IsSigned(t), NonSignBits(t), bias, 0);
    }
  }

  function Component(t: PrimitiveType): (c: PrimitiveType)
    ensures !IsComplex(c)
  {
    if IsComplex(t) then ComplexComponentType(t) else t
  }

  lemma OneHeld(t: PrimitiveType, bias: nat)
    requires bias >= MIN_BIAS && IsFloat(t)
    ensures RealHolds(t, bias, Finite(Pow2(bias)))
  {
    FormatsSane(t, bias);
    ShortIntegerHeld(FormatOf(t), bias, 1);
  }

  /** The imaginary unit is a value of every complex type and of no other. */
  lemma ImaginaryLost(from: PrimitiveType, to: PrimitiveType, bias: nat)
    requires bias >= MIN_BIAS && IsComplex(from) && !IsComplex(to)
    ensures !Embeds(from, to, bias)
  {
    var f, i := ComplexComponentType(from), Finite(Pow2(bias));
    ZeroHeld(f, bias);
    OneHeld(f, bias);
    assert Holds(from, bias, Finite(0), i);
    assert !Holds(to, bias, Finite(0), i);
  }

  lemma EmbedsByComponents(from: PrimitiveType, to: PrimitiveType, bias: nat)
    requires bias >= MIN_BIAS && (IsComplex(from) ==> IsComplex(to))
    ensures Embeds(from, to, bias) <==> RealEmbeds(Component(from), Component(to), bias)
  {
    var f, t := Component(from), Component(to);
    ZeroHeld(f, bias);
    ZeroHeld(t, bias);
    if Embeds(from, to, bias) {
      forall x | RealHolds(f, bias, x) ensures RealHolds(t, bias, x) {
        assert Holds(from, bias, x, Finite(0));
      }
    }
  }

  lemma CastByComponents(from: PrimitiveType, to: PrimitiveType)
    requires IsComplex(from) ==> IsComplex(to)
    ensures CastPreservesValues(from, to) <==> CastPreservesValues(Component(from), Component(to))
  {}

  lemma ComplexToReal(from: PrimitiveType, to: PrimitiveType)
    requires IsComplex(from) && !IsComplex(to)
    ensures !CastPreservesValues(from, to)
  {}

  /** The test says yes exactly when no value is lost, for every pair of array types. */
  lemma CastExact(from: PrimitiveType, to: PrimitiveType, bias: nat)
    requires bias >= MIN_BIAS
    ensures CastPreservesValues(from, to) <==> Embeds(from, to, bias)
  {
    if IsComplex(from) && !IsComplex(to) {
      ComplexToReal(from, to);
      ImaginaryLost(from, to, bias);
    } else {
      CastByComponents(from, to);
      EmbedsByComponents(from, to, bias);
      RealCastExact(Component(from), Component(to), bias);
    }
  }
}
