/** The binary32 interchange format of IEEE 754-2008 (section 3.4 for the
    layout, section 3.6 for its parameters): bit 31 is the sign, bits 30..23
    the biased exponent (bias 127) and bits 22..0 the trailing significand.
    Patterns are the unsigned 32-bit values 0 .. 2^32 - 1. */
module Binary32 {
  import opened JsNumber

  const FRACTION_BITS: nat := 23
  const BIAS: int := 127
  const MAX_EXPONENT: nat := 255
  /** 2^FRACTION_BITS: the implicit leading bit of a normal significand. */
  const HIDDEN_BIT: nat := 0x80_0000

  predicate IsPattern(b: int) {
    0 <= b < TWO_32
  }

  function SignBit(b: nat): nat {
    b / TWO_31
  }

  function BiasedExponent(b: nat): nat {
    (b / HIDDEN_BIT) % 256
  }

  function TrailingSignificand(b: nat): nat {
    b % HIDDEN_BIT
  }

  /** The fields laid out as one pattern. */
  function Pack(negative: bool, biasedExponent: nat, fraction: nat): nat {
    (if negative then TWO_31 else 0) + biasedExponent * HIDDEN_BIT + fraction
  }

  /** A finite pattern b stands for (-1)^SignBit(b) * Significand(b) * 2^Exponent(b):
      subnormal (no implicit bit) when the biased exponent is 0, normal otherwise. */
  function Significand(b: nat): nat {
    if BiasedExponent(b) == 0 then TrailingSignificand(b)
    else HIDDEN_BIT + TrailingSignificand(b)
  }

  function Exponent(b: nat): int {
    (if BiasedExponent(b) == 0 then 1 else BiasedExponent(b)) - BIAS - FRACTION_BITS
  }

  /** Packing and reading the fields back are inverse. */
  lemma PackFields(negative: bool, e: nat, f: nat)
    requires e < 256 && f < HIDDEN_BIT
    ensures IsPattern(Pack(negative, e, f))
    ensures SignBit(Pack(negative, e, f)) == (if negative then 1 else 0)
    ensures BiasedExponent(Pack(negative, e, f)) == e
    ensures TrailingSignificand(Pack(negative, e, f)) == f
  {
    var s := if negative then 1 else 0;
    var b := Pack(negative, e, f);
    assert b == (s * 256 + e) * 0x80_0000 + f;
    DivModUnique(b, 0x80_0000, s * 256 + e, f);
    DivModUnique(s * 256 + e, 256, s, e);
    DivModUnique(b, TWO_31, s, e * 0x80_0000 + f);
  }

  /** The sign bit is set exactly for the patterns from 2^31 up. */
  lemma SignBitIsTop(b: nat)
    requires IsPattern(b)
    ensures SignBit(b) == 1 <==> b >= TWO_31
    ensures BiasedExponent(b) != 0 ==> b != 0
  {
    if b >= TWO_31 {
      DivModUnique(b, TWO_31, 1, b - TWO_31);
    } else {
      DivModUnique(b, TWO_31, 0, b);
    }
  }

  /** The positive normal pattern b is the fraction num / den rounded toward
      zero: S * 2^E <= num / den < (S + 1) * 2^E for S = Significand(b) and
      E = Exponent(b), with both sides multiplied out to integers. */
  predicate TruncatesRatio(b: nat, num: nat, den: nat) {
    IsPattern(b) && 1 <= BiasedExponent(b) < MAX_EXPONENT && SignBit(b) == 0 && den > 0
    && var s, e := Significand(b), Exponent(b);
       if e >= 0 then s * Pow2(e) * den <= num < (s + 1) * Pow2(e) * den
       else s * den <= num * Pow2(-e) < (s + 1) * den
  }

  /** The same, with the pattern exactly equal to num / den. */
  predicate EqualsRatio(b: nat, num: nat, den: nat) {
    IsPattern(b) && 1 <= BiasedExponent(b) < MAX_EXPONENT && SignBit(b) == 0 && den > 0
    && var s, e := Significand(b), Exponent(b);
       if e >= 0 then s * Pow2(e) * den == num
       else s * den == num * Pow2(-e)
  }
}
