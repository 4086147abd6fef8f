/** int2ieee754 (main.ts): packs a 32-bit signed integer into a binary32 bit
    pattern with integer operations only, truncating the bits below the
    23-bit fraction. */
module FloatEncoder {
  import opened JsNumber
  import opened Binary32

  // ---------------------------------------------------------------------
  // Specification

  /** The absolute value the encoder works on: `(val > 0) ? val : -val`. */
  function Magnitude(val: int): (m: nat)
    ensures m == val || m == -val
    ensures m >= val && m >= -val
  {
    if val > 0 then val else -val
  }

  /** Index of the most significant set bit of a positive m. */
  function Log2(m: nat): nat
    requires m >= 1
  {
    if m == 1 then 0 else 1 + Log2(m / 2)
  }

  /** The 23 bits below the leading 1 of m, once that leading 1 is moved to bit 23:
      a left shift when it lies below bit 23, a right shift (dropping, not
      rounding, the bits shifted out) otherwise. */
  function FractionField(m: nat): (f: nat)
    requires m >= 1
    ensures f < HIDDEN_BIT
  {
    FractionAt(m, Log2(m))
  }

  /** The 23 bits below bit e of m, moved to bits 22..0. */
  function FractionAt(m: nat, e: nat): (f: nat)
    ensures f < HIDDEN_BIT
  {
    if e < 23 then (m * Pow2(23 - e)) % HIDDEN_BIT else (m / Pow2(e - 23)) % HIDDEN_BIT
  }

  /** The pattern main.ts computes: biased exponent msb - 23 + 127. */
  function AsWrittenBits(val: int): nat
    requires IsInt32(val)
  {
    if val == 0 then 0
    else Pack(val < 0, Log2(Magnitude(val)) + 104, FractionField(Magnitude(val)))
  }

  /** The binary32 pattern of val truncated toward zero: biased exponent msb + 127. */
  function TruncatedBits(val: int): nat
    requires IsInt32(val)
  {
    if val == 0 then 0
    else Pack(val < 0, Log2(Magnitude(val)) + 127, FractionField(Magnitude(val)))
  }

  /** b stands exactly for the integer v divided by 2^k: the sign bit is v's
      sign and Significand(b) * 2^(Exponent(b) + k) is |v|. */
  predicate DenotesScaled(b: nat, v: int, k: nat)
  {
    IsPattern(b) && BiasedExponent(b) != MAX_EXPONENT
    && SignBit(b) == (if v < 0 then 1 else 0)
    && var e := Exponent(b) + k;
       if e >= 0 then Significand(b) * Pow2(e) == Magnitude(v)
       else Significand(b) == Magnitude(v) * Pow2(-e)
  }

  /** b is the normal binary32 pattern of v rounded toward zero, with a unit
      2^Exponent(b) of at least 1: |v| lies in [S * 2^e, (S + 1) * 2^e). */
  predicate RoundsTowardZero(b: nat, v: int)
  {
    IsPattern(b) && 1 <= BiasedExponent(b) < MAX_EXPONENT
    && SignBit(b) == (if v < 0 then 1 else 0)
    && Exponent(b) >= 0
    && Significand(b) * Pow2(Exponent(b)) <= Magnitude(v) < (Significand(b) + 1) * Pow2(Exponent(b))
  }

  // ---------------------------------------------------------------------
  // The most significant bit

  lemma {:induction false} Log2Bounds(m: nat)
    requires m >= 1
    ensures Pow2(Log2(m)) <= m < Pow2(Log2(m) + 1)
  {
    if m > 1 {
      Log2Bounds(m / 2);
    }
  }

  lemma {:induction false} Log2Unique(m: nat, k: nat)
    requires Pow2(k) <= m < Pow2(k + 1)
    ensures Log2(m) == k
  {
    if k > 0 {
      Log2Unique(m / 2, k - 1);
    }
  }

  lemma Log2AtLeast(m: nat, k: nat)
    requires 1 <= m && Pow2(k) <= m
    ensures k <= Log2(m)
  {
    Log2Bounds(m);
    Pow2MonotoneImplies(Log2(m) + 1, k);
  }

  lemma Log2Monotone(m: nat, k: nat)
    requires 1 <= m < Pow2(k)
    ensures Log2(m) < k
  {
    Log2Bounds(m);
    if Log2(m) >= k {
      Pow2Monotone(k, Log2(m));
    }
  }

  /** Below 2^(i+1), bit i is set exactly when the value reaches 2^i. */
  lemma TopBit(u: nat, i: nat)
    requires u < Pow2(i + 1)
    ensures (u / Pow2(i)) % 2 == 1 <==> u >= Pow2(i)
  {
    var p := Pow2(i);
    assert u < 2 * p;
    if u >= p {
      DivModUnique(u, p, 1, u - p);
    } else {
      DivModUnique(u, p, 0, u);
    }
  }

  /** The scan of main.ts: bits 31 down to 0, stopping at the first set bit;
      msb stays 0 when no bit is set. */
  method FindMsb(out: int) returns (msb: int)
    ensures 0 <= msb <= 31
    ensures ToUint32(out) != 0 ==> Pow2(msb) <= ToUint32(out) < Pow2(msb + 1)
    ensures ToUint32(out) != 0 ==> msb == Log2(ToUint32(out))
    ensures ToUint32(out) == 0 ==> msb == 0
  {
    var u := ToUint32(out);
    Pow2Of32();
    msb := 0;
    var i := 31;
    while i >= 0
      invariant -1 <= i <= 31
      invariant u < Pow2(i + 1)
      invariant msb == 0
    {
      JsAndSingleBit(out, i);
      TopBit(u, i);
      if JsAnd(JsShl(1, i), out) != 0 {
        msb := i;
        Log2Unique(u, i);
        break;
      }
      i := i - 1;
    }
  }

  // ---------------------------------------------------------------------
  // The encoder

  /** int2ieee754 as written in main.ts. */
  method Int2Ieee754(val: int) returns (r: int)
    requires IsInt32(val)
    ensures IsInt32(r)
    ensures ToUint32(r) == AsWrittenBits(val)
  {
    if val == 0 {
      return 0;
    }
    var sign := if val > 0 then 0 else JsShl(1, 31);
    var out := if val > 0 then val else -val;
    ghost var m := Magnitude(val);
    assert out == m && 1 <= out <= TWO_31 by { MagnitudeFacts(val); }
    var msb := FindMsb(out);
    assert msb == Log2(m) by { MagnitudeFacts(val); }
    var ext := msb - 23;
    out := AlignFraction(out, ext);
    ext := ExponentField(ext + 127);
    out := JsOr(JsOr(sign, ext), out);
    assert ToUint32(out) == AsWrittenBits(val) by {
      SignPattern(val, sign);
      AssembleStep(val, sign, msb - 23 + 127, ext, FractionField(m), out);
    }
    r := out;
  }

  /** The evidently intended int2ieee754: the same steps with biased exponent msb + 127. */
  method Int2Ieee754Corrected(val: int) returns (r: int)
    requires IsInt32(val)
    ensures IsInt32(r)
    ensures ToUint32(r) == TruncatedBits(val)
  {
    if val == 0 {
      return 0;
    }
    var sign := if val > 0 then 0 else JsShl(1, 31);
    var out := if val > 0 then val else -val;
    ghost var m := Magnitude(val);
    assert out == m && 1 <= out <= TWO_31 by { MagnitudeFacts(val); }
    var msb := FindMsb(out);
    assert msb == Log2(m) by { MagnitudeFacts(val); }
    var ext := msb - 23;
    out := AlignFraction(out, ext);
    ext := ExponentField(msb + 127);
    out := JsOr(JsOr(sign, ext), out);
    assert ToUint32(out) == TruncatedBits(val) by {
      SignPattern(val, sign);
      AssembleStep(val, sign, msb + 127, ext, FractionField(m), out);
    }
    r := out;
  }

  /** Moves the leading 1 of out (at bit ext + 23) to bit 23 and keeps the
      23 bits below it: `(out << -ext) & 0x7FFFFF` or `(out >> ext) & 0x7FFFFF`. */
  method AlignFraction(out: int, ext: int) returns (f: int)
    requires 1 <= out <= TWO_31 && ext == Log2(out) - 23
    ensures f == FractionField(out)
  {
    Uint32OfSmall(out);
    Log2Bounds(out);
    assert Log2(out) <= 31 by {
      Pow2Of31();
      if Log2(out) > 31 {
        Pow2Monotone(32, Log2(out));
        Pow2Of32();
      }
    }
    if ext < 0 {
      f := JsAnd(JsShl(out, -ext), 0x7FFFFF);
    } else {
      f := JsAnd(JsShr(out, ext), 0x7FFFFF);
    }
    FractionStep(out, Log2(out), f);
  }

  /** `((c & 0xFF) << 23)`: the biased exponent c in its field. */
  method ExponentField(c: int) returns (ext: int)
    requires 0 <= c < 256
    ensures ext == c * HIDDEN_BIT && ToUint32(ext) == ext
  {
    ext := JsShl(JsAnd(c, 0xFF), 23);
    ExponentStep(c, ext);
  }

  // ---------------------------------------------------------------------
  // Steps of the encoder proof

  lemma MagnitudeFacts(val: int)
    requires IsInt32(val) && val != 0
    ensures 1 <= Magnitude(val) <= TWO_31
    ensures ToUint32(Magnitude(val)) == Magnitude(val)
  {
    Uint32OfSmall(Magnitude(val));
  }

  /** Both shift-and-mask branches leave FractionField of the magnitude. */
  lemma FractionStep(m: nat, msb: int, out: int)
    requires 1 <= m <= TWO_31 && 0 <= msb <= 31 && msb == Log2(m) && ToUint32(m) == m
    requires msb - 23 < 0 ==> out == JsAnd(JsShl(m, -(msb - 23)), 0x7FFFFF)
    requires msb - 23 >= 0 ==> out == JsAnd(JsShr(m, msb - 23), 0x7FFFFF)
    ensures out == FractionField(m)
  {
    if msb < 23 {
      FractionByShl(m, msb, out);
    } else {
      FractionByShr(m, msb, out);
    }
    assert FractionField(m) == FractionAt(m, msb);
  }

  lemma FractionByShl(m: nat, msb: int, out: int)
    requires 0 <= msb < 23 && ToUint32(m) == m
    requires out == JsAnd(JsShl(m, 23 - msb), 0x7FFFFF)
    ensures out == FractionAt(m, msb)
  {
    ShlMask23(m, 23 - msb);
  }

  lemma FractionByShr(m: nat, msb: int, out: int)
    requires 23 <= msb <= 31 && ToUint32(m) == m
    requires out == JsAnd(JsShr(m, msb - 23), 0x7FFFFF)
    ensures out == FractionAt(m, msb)
  {
    ShrMask23(m, msb - 23);
  }

  /** (x << s) & 0x7FFFFF keeps the low 23 bits of x * 2^s. */
  lemma ShlMask23(x: int, s: nat)
    requires s < 32
    ensures JsAnd(JsShl(x, s), 0x7FFFFF) == (ToUint32(x) * Pow2(s)) % HIDDEN_BIT
  {
    Pow2Of23();
    JsShlMask(x, s, 23);
  }

  /** (x >> s) & 0x7FFFFF is bits s .. s+22 of x. */
  lemma ShrMask23(x: int, s: nat)
    requires s <= 9
    ensures JsAnd(JsShr(x, s), 0x7FFFFF) == (ToUint32(x) / Pow2(s)) % HIDDEN_BIT
  {
    Pow2Of23();
    JsShrMask(x, s, 23);
  }

  /** ((c & 0xFF) << 23) for a biased exponent c in 0..255 is c * 2^23. */
  lemma ExponentStep(c: int, ext: int)
    requires 0 <= c < 256 && ext == JsShl(JsAnd(c, 0xFF), 23)
    ensures ext == c * HIDDEN_BIT && ToUint32(ext) == ext && ext % HIDDEN_BIT == 0
  {
    calc {
      ext;
      { LowByte(c); }
      JsShl(c, 23);
      { JsShlPow2(c, 23); Int32OfSmall(c); Pow2Of23(); }
      ToInt32(c * HIDDEN_BIT);
      { Int32OfSmall(c * HIDDEN_BIT); }
      c * HIDDEN_BIT;
    }
    Uint32OfSmall(c * HIDDEN_BIT);
    DivModUnique(c * HIDDEN_BIT, HIDDEN_BIT, c, 0);
  }

  /** c & 0xFF == c for c in 0..255 */
  lemma LowByte(c: int)
    requires 0 <= c < 256
    ensures JsAnd(c, 0xFF) == c
  {
    calc {
      JsAnd(c, 0xFF);
      { Pow2Of8(); JsAndLowMask(c, 8); }
      ToUint32(c) % 0x100;
      { Uint32OfSmall(c); }
      c;
    }
  }

  /** sign | ext | fraction lays the three fields side by side. */
  lemma AssembleStep(val: int, sign: int, c: int, ext: int, f: int, out: int)
    requires ToUint32(sign) == if val < 0 then TWO_31 else 0
    requires 0 <= c < 256 && ext == c * HIDDEN_BIT && ToUint32(ext) == ext
    requires 0 <= f < HIDDEN_BIT
    requires out == JsOr(JsOr(sign, ext), f)
    ensures ToUint32(out) == Pack(val < 0, c, f)
  {
    var s := if val < 0 then TWO_31 else 0;
    var high := JsOr(sign, ext);
    OrDisjoint31(sign, ext);
    assert (s + ext) % HIDDEN_BIT == 0 by {
      DivModUnique(s + c * HIDDEN_BIT, HIDDEN_BIT, s / HIDDEN_BIT + c, 0);
    }
    OrDisjoint23(high, f);
  }

  /** `(val > 0) ? 0 : (1 << 31)` for a nonzero val. */
  lemma SignPattern(val: int, sign: int)
    requires val != 0 && sign == if val > 0 then 0 else JsShl(1, 31)
    ensures ToUint32(sign) == if val < 0 then TWO_31 else 0
  {
    if val < 0 {
      SignMask();
    }
  }

  /** 1 << 31 is the sign-bit pattern 2^31. */
  lemma SignMask()
    ensures ToUint32(JsShl(1, 31)) == TWO_31
  {
    ShlOne(31);
    Pow2Of31();
  }

  /** OR of a pattern with bits 30..0 clear and a value below 2^31 adds them. */
  lemma OrDisjoint31(x: int, y: int)
    requires ToUint32(x) % TWO_31 == 0 && 0 <= y < TWO_31
    ensures ToUint32(JsOr(x, y)) == ToUint32(x) + y
  {
    Pow2Of31();
    JsOrDisjoint(x, y, 31);
  }

  /** OR of a pattern with bits 22..0 clear and a value below 2^23 adds them. */
  lemma OrDisjoint23(x: int, y: int)
    requires ToUint32(x) % HIDDEN_BIT == 0 && 0 <= y < HIDDEN_BIT
    ensures ToUint32(JsOr(x, y)) == ToUint32(x) + y
  {
    Pow2Of23();
    JsOrDisjoint(x, y, 23);
  }

  // ---------------------------------------------------------------------
  // What the patterns stand for

  /** The significand with its implicit leading 1 is the magnitude moved so
      that its top bit lands on bit 23. */
  lemma NormalizedSignificand(m: nat)
    requires m >= 1
    ensures HIDDEN_BIT <= HIDDEN_BIT + FractionField(m) < 2 * HIDDEN_BIT
    ensures Log2(m) < 23 ==> HIDDEN_BIT + FractionField(m) == m * Pow2(23 - Log2(m))
    ensures Log2(m) >= 23 ==> HIDDEN_BIT + FractionField(m) == m / Pow2(Log2(m) - 23)
  {
    var e := Log2(m);
    Log2Bounds(m);
    if e < 23 {
      ShiftedUp(m, e);
    } else {
      ShiftedDown(m, e);
    }
  }

  lemma ShiftedUp(m: nat, e: nat)
    requires e < 23 && Pow2(e) <= m < Pow2(e + 1)
    ensures HIDDEN_BIT <= m * Pow2(23 - e) < 2 * HIDDEN_BIT
    ensures FractionAt(m, e) == m * Pow2(23 - e) - HIDDEN_BIT
  {
    var p, x := Pow2(23 - e), m * Pow2(23 - e);
    Pow2Of23();
    Pow2Of24();
    Pow2Add(e, 23 - e);
    Pow2Add(e + 1, 23 - e);
    MulLe(Pow2(e), m, p);
    MulLt(m, Pow2(e + 1), p);
    DivModUnique(x, HIDDEN_BIT, 1, x - HIDDEN_BIT);
  }

  lemma ShiftedDown(m: nat, e: nat)
    requires e >= 23 && Pow2(e) <= m < Pow2(e + 1)
    ensures HIDDEN_BIT <= m / Pow2(e - 23) < 2 * HIDDEN_BIT
    ensures FractionAt(m, e) == m / Pow2(e - 23) - HIDDEN_BIT
  {
    var d, x := Pow2(e - 23), m / Pow2(e - 23);
    Pow2Of23();
    Pow2Of24();
    Pow2Add(23, e - 23);
    Pow2Add(24, e - 23);
    DivInRange(m, d, HIDDEN_BIT, 2 * HIDDEN_BIT);
    DivModUnique(x, HIDDEN_BIT, 1, x - HIDDEN_BIT);
  }

  /** The fields of the corrected pattern: sign, biased exponent msb + 127,
      and the 23 bits below the leading 1. */
  lemma TruncatedFields(val: int)
    requires IsInt32(val) && val != 0
    ensures IsPattern(TruncatedBits(val))
    ensures SignBit(TruncatedBits(val)) == (if val < 0 then 1 else 0)
    ensures BiasedExponent(TruncatedBits(val)) == Log2(Magnitude(val)) + 127
    ensures TrailingSignificand(TruncatedBits(val)) == FractionField(Magnitude(val))
  {
    MsbBelow32(val);
    PackFields(val < 0, Log2(Magnitude(val)) + 127, FractionField(Magnitude(val)));
  }

  /** The fields of the pattern main.ts computes: biased exponent msb + 104. */
  lemma AsWrittenFields(val: int)
    requires IsInt32(val) && val != 0
    ensures IsPattern(AsWrittenBits(val))
    ensures SignBit(AsWrittenBits(val)) == (if val < 0 then 1 else 0)
    ensures BiasedExponent(AsWrittenBits(val)) == Log2(Magnitude(val)) + 104
    ensures TrailingSignificand(AsWrittenBits(val)) == FractionField(Magnitude(val))
  {
    MsbBelow32(val);
    PackFields(val < 0, Log2(Magnitude(val)) + 104, FractionField(Magnitude(val)));
  }

  lemma MsbBelow32(val: int)
    requires IsInt32(val) && val != 0
    ensures Log2(Magnitude(val)) <= 31
  {
    Pow2Of32();
    Log2Monotone(Magnitude(val), 32);
  }

  /** Below 2^24 every integer is a binary32 value, and the corrected encoder
      produces exactly it. */
  lemma TruncatedExact(val: int)
    requires IsInt32(val) && 0 < Magnitude(val) < 2 * HIDDEN_BIT
    ensures DenotesScaled(TruncatedBits(val), val, 0)
  {
    var m, b := Magnitude(val), TruncatedBits(val);
    TruncatedFields(val);
    Pow2Of24();
    Log2Monotone(m, 24);
    NormalizedSignificand(m);
    assert Exponent(b) == Log2(m) - 23;
  }

  /** From 2^23 up, the corrected encoder drops the bits below the unit of the
      last place: the pattern is |val| rounded toward zero. */
  lemma TruncatedRoundsDown(val: int)
    requires IsInt32(val) && Magnitude(val) >= HIDDEN_BIT
    ensures RoundsTowardZero(TruncatedBits(val), val)
  {
    var m, b := Magnitude(val), TruncatedBits(val);
    assert Log2(m) >= 23 by {
      Pow2Of23();
      Log2AtLeast(m, 23);
    }
    var e := Log2(m) - 23;
    var q := m / Pow2(e);
    DivBracket(m, Pow2(e));
    assert Significand(b) == q by {
      TruncatedShape(val);
      NormalizedSignificand(m);
    }
    TruncatedShape(val);
    RoundsTowardZeroIntro(b, val, q, e);
  }

  /** The corrected pattern is normal, with the magnitude's sign, significand
      HIDDEN_BIT + FractionField and exponent msb - 23. */
  lemma TruncatedShape(val: int)
    requires IsInt32(val) && val != 0
    ensures IsPattern(TruncatedBits(val))
    ensures 1 <= BiasedExponent(TruncatedBits(val)) < MAX_EXPONENT
    ensures SignBit(TruncatedBits(val)) == (if val < 0 then 1 else 0)
    ensures Significand(TruncatedBits(val)) == HIDDEN_BIT + FractionField(Magnitude(val))
    ensures Exponent(TruncatedBits(val)) == Log2(Magnitude(val)) - 23
  {
    MsbBelow32(val);
    TruncatedFields(val);
  }

  lemma RoundsTowardZeroIntro(b: nat, val: int, q: nat, e: nat)
    requires IsPattern(b) && 1 <= BiasedExponent(b) < MAX_EXPONENT
    requires SignBit(b) == (if val < 0 then 1 else 0)
    requires Significand(b) == q && Exponent(b) == e
    requires q * Pow2(e) <= Magnitude(val) < (q + 1) * Pow2(e)
    ensures RoundsTowardZero(b, val)
  {
  }

  /** The pattern main.ts computes stands exactly for val / 2^23 below 2^24:
      its exponent is 23 too small. */
  lemma AsWrittenScaled(val: int)
    requires IsInt32(val) && 0 < Magnitude(val) < 2 * HIDDEN_BIT
    ensures DenotesScaled(AsWrittenBits(val), val, 23)
  {
    var m, b := Magnitude(val), AsWrittenBits(val);
    AsWrittenFields(val);
    Pow2Of24();
    Log2Monotone(m, 24);
    NormalizedSignificand(m);
    assert Exponent(b) + 23 == Log2(m) - 23;
  }

  /** The two patterns differ only in the exponent field, by 23. */
  lemma AsWrittenExponentOffset(val: int)
    requires IsInt32(val) && val != 0
    ensures AsWrittenBits(val) + 23 * HIDDEN_BIT == TruncatedBits(val)
  {
    var e := Log2(Magnitude(val));
    MulAddDistrib(e + 104, 23, HIDDEN_BIT);
  }

  /** The int32 the encoder returns is negative exactly for a negative input
      and zero exactly for zero. */
  lemma ResultSign(val: int, r: int, corrected: bool)
    requires IsInt32(val) && IsInt32(r)
    requires ToUint32(r) == if corrected then TruncatedBits(val) else AsWrittenBits(val)
    ensures r < 0 <==> val < 0
    ensures r == 0 <==> val == 0
  {
    var b := ToUint32(r);
    Int32Sign(r);
    if val != 0 {
      assert SignBit(b) == (if val < 0 then 1 else 0) && BiasedExponent(b) != 0 by {
        if corrected {
          TruncatedFields(val);
        } else {
          AsWrittenFields(val);
        }
      }
      SignBitIsTop(b);
    }
  }

  /** int2ieee754(-v) is int2ieee754(v) with bit 31 set. */
  lemma NegationSetsSignBit(v: int)
    requires 0 < v < TWO_31
    ensures AsWrittenBits(-v) == AsWrittenBits(v) + TWO_31
    ensures TruncatedBits(-v) == TruncatedBits(v) + TWO_31
  {
    assert Magnitude(-v) == Magnitude(v);
  }

  /** 1 and 15: the discrepancy on concrete inputs. The table of setStepAngle
      holds 0x41700000 for 15 degrees, the corrected encoding of 15. */
  lemma AsWrittenCounterexample()
    ensures AsWrittenBits(1) == 0x3400_0000 && TruncatedBits(1) == 0x3F80_0000
    ensures AsWrittenBits(15) == 0x35F0_0000 && TruncatedBits(15) == 0x4170_0000
  {
    Pow2Of23();
    Log2Unique(15, 3);
    assert FractionField(15) == 0x70_0000 by {
      Pow2Add(20, 3);
      DivModUnique(15 * 0x10_0000, HIDDEN_BIT, 1, 0x70_0000);
    }
  }

  /** More corrected encodings: 18 and -1. */
  lemma TruncatedValues()
    ensures TruncatedBits(18) == 0x4190_0000
    ensures TruncatedBits(-1) == 0xBF80_0000
  {
    Pow2Of23();
    Log2Unique(18, 4);
    assert FractionField(18) == 0x10_0000 by {
      Pow2Add(19, 4);
      DivModUnique(18 * 0x8_0000, HIDDEN_BIT, 1, 0x10_0000);
    }
  }

  /** The most negative int32, -2^31, whose magnitude only fits as an unsigned
      pattern: the corrected encoder gives -2^31 exactly (0xCF000000), while
      int2ieee754 as written gives -2^8 (0xC3800000). */
  lemma TruncatedMinInt()
    ensures TruncatedBits(-TWO_31) == 0xCF00_0000
    ensures AsWrittenBits(-TWO_31) == 0xC380_0000
  {
    assert Log2(TWO_31) == 31 by {
      Pow2Of31();
      Pow2Of32();
      Log2Unique(TWO_31, 31);
    }
    assert FractionAt(TWO_31, 31) == 0 by {
      Pow2Of8();
      assert TWO_31 / 0x100 == HIDDEN_BIT;
    }
  }
}
