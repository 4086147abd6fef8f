/** The integral part of JavaScript's `number` that the driver code touches:
    the 32-bit conversions ToInt32 / ToUint32 and the bitwise operators
    `&`, `|`, `<<` and `>>` of ECMA-262 (sections 7.1.5, 7.1.6, 12.8 and
    12.11 of the 2015 edition), stated on unbounded integers. */
module JsNumber {

  const TWO_31: int := 0x8000_0000
  const TWO_32: int := 0x1_0000_0000

  /** 2^n */
  function Pow2(n: nat): (p: nat)
    ensures p >= 1
  {
    if n == 0 then 1 else 2 * Pow2(n - 1)
  }

  /** The values a JavaScript bitwise operator can produce. */
  predicate IsInt32(x: int) {
    -TWO_31 <= x < TWO_31
  }

  /** ToUint32: the unique value in [0, 2^32) congruent to x modulo 2^32. */
  function ToUint32(x: int): (u: nat)
    ensures u < TWO_32 && (x - u) % TWO_32 == 0
  {
    x % TWO_32
  }

  /** ToInt32: the unique value in [-2^31, 2^31) congruent to x modulo 2^32. */
  function ToInt32(x: int): (i: int)
    ensures IsInt32(i)
    ensures ToUint32(i) == ToUint32(x)
    ensures IsInt32(x) ==> i == x
  {
    var u := ToUint32(x);
    if u < TWO_31 then u else u - TWO_32
  }

  /** Bitwise AND of the low n bits of a and b. */
  function BitAnd(a: nat, b: nat, n: nat): nat
  {
    if n == 0 then 0
    else 2 * BitAnd(a / 2, b / 2, n - 1) + (if a % 2 == 1 && b % 2 == 1 then 1 else 0)
  }

  /** Bitwise OR of the low n bits of a and b. */
  function BitOr(a: nat, b: nat, n: nat): nat
  {
    if n == 0 then 0
    else 2 * BitOr(a / 2, b / 2, n - 1) + (if a % 2 == 1 || b % 2 == 1 then 1 else 0)
  }

  /** x & y */
  function JsAnd(x: int, y: int): (r: int)
    ensures IsInt32(r)
  {
    ToInt32(BitAnd(ToUint32(x), ToUint32(y), 32))
  }

  /** x | y */
  function JsOr(x: int, y: int): (r: int)
    ensures IsInt32(r)
  {
    ToInt32(BitOr(ToUint32(x), ToUint32(y), 32))
  }

  /** x << n: only the low five bits of the shift count are used. */
  function JsShl(x: int, n: int): (r: int)
    ensures IsInt32(r)
  {
    ToInt32(ToInt32(x) * Pow2(ToUint32(n) % 32))
  }

  /** x >> n: the sign-propagating shift, i.e. division rounded toward
      minus infinity (Dafny's `/` by a positive divisor). The quotient is
      already a 32-bit value; the outer ToInt32 only makes that visible. */
  function JsShr(x: int, n: int): (r: int)
    ensures IsInt32(r)
  {
    ToInt32(ToInt32(x) / Pow2(ToUint32(n) % 32))
  }

  // ---------------------------------------------------------------------
  // Arithmetic helpers

  lemma DivModUnique(a: int, d: int, q: int, r: int)
    requires d > 0 && a == q * d + r && 0 <= r < d
    ensures a / d == q && a % d == r
  {
    var k := q - a / d;
    assert k * d == a % d - r by {
      assert a == (a / d) * d + a % d;
      assert (q - a / d) * d == q * d - (a / d) * d;
    }
    assert k >= 1 ==> (k - 1) * d >= 0;
    assert k <= -1 ==> (-k - 1) * d >= 0;
  }

  lemma DivHalf(a: nat, p: nat)
    requires p > 0
    ensures a / 2 / p == a / (2 * p)
    ensures a % (2 * p) == 2 * ((a / 2) % p) + a % 2
  {
    var q := a / 2 / p;
    var t := (a / 2) % p;
    assert a / 2 == q * p + t;
    assert a == q * (2 * p) + (2 * t + a % 2);
    DivModUnique(a, 2 * p, q, 2 * t + a % 2);
  }

  lemma {:induction false} Pow2Add(a: nat, b: nat)
    ensures Pow2(a + b) == Pow2(a) * Pow2(b)
  {
    if a > 0 {
      Pow2Add(a - 1, b);
    }
  }

  lemma {:induction false} Pow2Monotone(a: nat, b: nat)
    requires a <= b
    ensures Pow2(a) <= Pow2(b)
  {
    if a < b {
      Pow2Monotone(a, b - 1);
    }
  }

  lemma Pow2MonotoneImplies(a: nat, b: nat)
    ensures a <= b ==> Pow2(a) <= Pow2(b)
  {
    if a <= b {
      Pow2Monotone(a, b);
    }
  }

  // ---------------------------------------------------------------------
  // Bit identities

  /** Masking with 2^k - 1 keeps the value modulo 2^k. */
  lemma {:induction false} BitAndLowMask(a: nat, k: nat, n: nat)
    requires k <= n
    ensures BitAnd(a, Pow2(k) - 1, n) == a % Pow2(k)
    decreases n, 1
  {
    if n == 0 {
    } else if k == 0 {
      BitAndZero(a, n);
    } else {
      BitAndLowMaskStep(a, k, n);
    }
  }

  lemma {:induction false} BitAndLowMaskStep(a: nat, k: nat, n: nat)
    requires 1 <= k <= n
    ensures BitAnd(a, Pow2(k) - 1, n) == a % Pow2(k)
    decreases n, 0
  {
    BitAndLowMask(a / 2, k - 1, n - 1);
    LowMaskStep(a, Pow2(k - 1), n);
  }

  /** One bit more of mask: the low bit of a, then the mask of the rest. */
  lemma LowMaskStep(a: nat, p: nat, n: nat)
    requires p >= 1 && n >= 1 && BitAnd(a / 2, p - 1, n - 1) == (a / 2) % p
    ensures BitAnd(a, 2 * p - 1, n) == a % (2 * p)
  {
    var mask := 2 * p - 1;
    assert mask / 2 == p - 1 && mask % 2 == 1 by {
      DivModUnique(mask, 2, p - 1, 1);
    }
    assert BitAnd(a, mask, n) == 2 * ((a / 2) % p) + a % 2;
    DivHalf(a, p);
  }

  lemma {:induction false} BitAndZero(a: nat, n: nat)
    ensures BitAnd(a, 0, n) == 0
  {
    if n > 0 {
      BitAndZero(a / 2, n - 1);
    }
  }

  /** AND with the single bit 2^i is nonzero exactly when bit i of a is set. */
  lemma {:induction false} BitAndSingleBit(a: nat, i: nat, n: nat)
    requires i < n
    ensures BitAnd(Pow2(i), a, n) != 0 <==> (a / Pow2(i)) % 2 == 1
  {
    if i == 0 {
      BitAndZero(a / 2, n - 1);
      assert BitAnd(0, a / 2, n - 1) == BitAnd(a / 2, 0, n - 1) by {
        BitAndCommutes(0, a / 2, n - 1);
      }
    } else {
      BitAndSingleBit(a / 2, i - 1, n - 1);
      DivHalf(a, Pow2(i - 1));
    }
  }

  lemma {:induction false} BitAndCommutes(a: nat, b: nat, n: nat)
    ensures BitAnd(a, b, n) == BitAnd(b, a, n)
  {
    if n > 0 {
      BitAndCommutes(a / 2, b / 2, n - 1);
    }
  }

  lemma {:induction false} BitAndBound(a: nat, b: nat, n: nat)
    ensures BitAnd(a, b, n) < Pow2(n)
  {
    if n > 0 {
      BitAndBound(a / 2, b / 2, n - 1);
    }
  }

  /** OR of a value whose low k bits are clear with a value below 2^k is their sum. */
  lemma {:induction false} BitOrDisjoint(a: nat, b: nat, k: nat, n: nat)
    requires k <= n && a < Pow2(n) && b < Pow2(k) && a % Pow2(k) == 0
    ensures BitOr(a, b, n) == a + b
  {
    if n == 0 {
    } else if k == 0 {
      BitOrDisjoint(a / 2, 0, 0, n - 1);
    } else {
      DivHalf(a, Pow2(k - 1));
      BitOrDisjoint(a / 2, b / 2, k - 1, n - 1);
    }
  }

  // ---------------------------------------------------------------------
  // Powers of two used by the driver

  lemma Pow2Constants()
    ensures Pow2(8) == 0x100 && Pow2(16) == 0x1_0000 && Pow2(23) == 0x80_0000
    ensures Pow2(24) == 0x100_0000 && Pow2(31) == TWO_31 && Pow2(32) == TWO_32
  {
    Pow2Add(8, 8);
    Pow2Add(16, 7);
    Pow2Add(16, 8);
    Pow2Add(16, 15);
    Pow2Add(16, 16);
  }

  lemma Pow2Of8()
    ensures Pow2(8) == 0x100
  {
    Pow2Constants();
  }

  lemma Pow2Of23()
    ensures Pow2(23) == 0x80_0000
  {
    Pow2Constants();
  }

  lemma Pow2Of24()
    ensures Pow2(24) == 0x100_0000
  {
    Pow2Constants();
  }

  lemma Pow2Of31()
    ensures Pow2(31) == TWO_31
  {
    Pow2Constants();
  }

  lemma Pow2Of32()
    ensures Pow2(32) == TWO_32
  {
    Pow2Constants();
  }

  lemma MulAddDistrib(a: int, b: int, c: int)
    ensures (a + b) * c == a * c + b * c
  {
  }

  /** t * 2^32 regrouped along a factorisation 2^32 = q * p. */
  lemma ScaleSplit(t: int, q: int, p: int)
    requires TWO_32 == q * p
    ensures t * TWO_32 == (t * q) * p
  {
    calc {
      t * TWO_32;
      t * (q * p);
      (t * q) * p;
    }
  }

  lemma MulNonneg(a: int, b: int)
    requires a >= 0 && b >= 0
    ensures a * b >= 0
  {
  }

  lemma MulLe(a: int, b: int, c: int)
    requires a <= b && c >= 0
    ensures a * c <= b * c
  {
    MulNonneg(b - a, c);
    MulAddDistrib(b - a, a, c);
  }

  lemma MulLt(a: int, b: int, c: int)
    requires a < b && c > 0
    ensures a * c < b * c
  {
    MulLe(a + 1, b, c);
    MulAddDistrib(a, 1, c);
  }

  /** lo * d <= m < hi * d bounds m / d between lo and hi. */
  lemma DivInRange(m: int, d: int, lo: int, hi: int)
    requires d > 0 && lo * d <= m < hi * d
    ensures lo <= m / d < hi
  {
    var q := m / d;
    assert m == q * d + m % d;
    MulAddDistrib(q, 1, d);
    MulLeImplies(q + 1, lo, d);
    MulLeImplies(hi, q, d);
  }

  lemma DivModIdentity(m: int, d: int)
    requires d > 0
    ensures m == (m / d) * d + m % d
  {
  }

  /** m lies between the multiples of d around it. */
  lemma DivBracket(m: int, d: int)
    requires d > 0
    ensures (m / d) * d <= m < (m / d + 1) * d
  {
    assert m == (m / d) * d + m % d;
    MulAddDistrib(m / d, 1, d);
  }

  lemma MulLeImplies(a: int, b: int, c: int)
    ensures a <= b && c >= 0 ==> a * c <= b * c
  {
    if a <= b && c >= 0 {
      MulLe(a, b, c);
    }
  }

  /** c * p + y stays below q * p when c * p < q * p and y < p. */
  lemma BelowMultiple(c: int, q: int, p: int, y: int)
    requires p > 0 && 0 <= c * p < q * p && 0 <= y < p
    ensures c * p + y < q * p
  {
    if c >= q {
      MulNonneg(c - q, p);
      MulAddDistrib(c - q, q, p);
    }
    MulNonneg(q - 1 - c, p);
    MulAddDistrib(q - 1 - c, c + 1, p);
    MulAddDistrib(c, 1, p);
  }

  lemma CongruentScaled(w: int, u: int, t: int, c: int)
    requires w == u + t * TWO_32
    ensures w * c == u * c + (t * c) * TWO_32
  {
    MulAddDistrib(u, t * TWO_32, c);
  }

  lemma DivAddMul(a: int, c: int, d: int)
    requires d > 0
    ensures (a + c * d) / d == a / d + c
    ensures (a + c * d) % d == a % d
  {
    assert a + c * d == (a / d + c) * d + a % d;
    DivModUnique(a + c * d, d, a / d + c, a % d);
  }

  lemma DivAddMultiple(x: int, b: int, c: int, d: int)
    requires d > 0 && x == b + c * d
    ensures x / d == b / d + c
  {
    DivAddMul(b, c, d);
  }

  lemma MulAssoc(a: int, b: int, c: int)
    ensures a * (b * c) == (a * b) * c
  {
  }

  lemma ModAddMultiple(x: int, b: int, c: int, d: int)
    requires d > 0 && x == b + c * d
    ensures x % d == b % d
  {
    DivAddMul(b, c, d);
  }

  lemma Uint32OfSmall(m: int)
    requires 0 <= m < TWO_32
    ensures ToUint32(m) == m
  {
  }

  lemma Int32OfSmall(r: int)
    requires 0 <= r < TWO_31
    ensures ToInt32(r) == r
  {
  }

  /** An int32 is negative exactly when bit 31 of its pattern is set, and zero
      exactly when its pattern is. */
  lemma Int32Sign(r: int)
    requires IsInt32(r)
    ensures r < 0 <==> ToUint32(r) >= TWO_31
    ensures r == 0 <==> ToUint32(r) == 0
  {
    if r < 0 {
      DivModUnique(r, TWO_32, -1, r + TWO_32);
    } else {
      DivModUnique(r, TWO_32, 0, r);
    }
  }

  /** ToInt32 subtracts 2^32 exactly when bit 31 is set. */
  lemma ToInt32Unsigned(x: int)
    ensures ToInt32(x) == ToUint32(x) - (if ToUint32(x) < TWO_31 then 0 else TWO_32)
  {
  }

  /** Two integers congruent modulo 2^32 are congruent modulo 2^k, k <= 32. */
  lemma CongruentLow(a: int, b: int, t: int, k: nat)
    requires k <= 32 && a == b + t * TWO_32
    ensures a % Pow2(k) == b % Pow2(k)
  {
    var p, q := Pow2(k), Pow2(32 - k);
    Two32Split(k, q, p);
    ScaleSplit(t, q, p);
    ModAddMultiple(a, b, t * q, p);
  }

  /** ToUint32(x) and x agree modulo 2^k, k <= 32. */
  lemma Uint32Low(x: int, k: nat)
    requires k <= 32
    ensures ToUint32(x) % Pow2(k) == x % Pow2(k)
  {
    var t := (x - ToUint32(x)) / TWO_32;
    assert x == ToUint32(x) + (x / TWO_32) * TWO_32;
    CongruentLow(x, ToUint32(x), x / TWO_32, k);
  }

  // ---------------------------------------------------------------------
  // The operator combinations that occur in the driver

  /** x & (2^k - 1) keeps the low k bits. */
  lemma JsAndLowMask(x: int, k: nat)
    requires k <= 31
    ensures JsAnd(x, Pow2(k) - 1) == ToUint32(x) % Pow2(k)
  {
    Pow2Monotone(k, 31);
    Pow2Of31();
    var m := Pow2(k) - 1;
    Uint32OfSmall(m);
    BitAndLowMask(ToUint32(x), k, 32);
    Int32OfSmall(BitAnd(ToUint32(x), m, 32));
  }

  /** A shift count below 32 is used as it is. */
  lemma ShiftCount(s: int)
    requires 0 <= s < 32
    ensures ToUint32(s) % 32 == s
  {
    Uint32OfSmall(s);
  }

  lemma JsShlPow2(x: int, s: int)
    requires 0 <= s < 32
    ensures JsShl(x, s) == ToInt32(ToInt32(x) * Pow2(s))
  {
    ShiftCount(s);
  }

  lemma JsShrDiv(x: int, s: int)
    requires 0 <= s < 32
    ensures JsShr(x, s) == ToInt32(ToInt32(x) / Pow2(s))
  {
    ShiftCount(s);
  }

  /** (1 << i) & x is nonzero exactly when bit i of x is set. */
  lemma JsAndSingleBit(x: int, i: int)
    requires 0 <= i < 32
    ensures JsAnd(JsShl(1, i), x) != 0 <==> (ToUint32(x) / Pow2(i)) % 2 == 1
  {
    ShlOne(i);
    var r := BitAnd(Pow2(i), ToUint32(x), 32);
    assert JsAnd(JsShl(1, i), x) == ToInt32(r);
    BitAndSingleBit(ToUint32(x), i, 32);
    BitAndBound(Pow2(i), ToUint32(x), 32);
    Pow2Of32();
    NonzeroInt32(r);
  }

  /** 1 << i is the bit pattern 2^i. */
  lemma ShlOne(i: int)
    requires 0 <= i < 32
    ensures ToUint32(JsShl(1, i)) == Pow2(i)
  {
    var p := Pow2(i);
    assert p < TWO_32 by {
      Pow2Monotone(i, 31);
      Pow2Of31();
    }
    calc {
      ToUint32(JsShl(1, i));
      { JsShlPow2(1, i); Int32OfSmall(1); }
      ToUint32(ToInt32(p));
      ToUint32(p);
      { Uint32OfSmall(p); }
      p;
    }
  }

  lemma NonzeroInt32(r: int)
    requires 0 <= r < TWO_32
    ensures ToInt32(r) != 0 <==> r != 0
  {
    Uint32OfSmall(r);
  }

  /** x | y, for y below 2^k and x with its low k bits clear, adds the bit patterns. */
  lemma JsOrDisjoint(x: int, y: int, k: nat)
    requires k <= 32 && 0 <= y < Pow2(k) && ToUint32(x) % Pow2(k) == 0
    ensures ToUint32(JsOr(x, y)) == ToUint32(x) + y
  {
    SumBelow32(ToUint32(x), y, k);
    BitOr32Disjoint(ToUint32(x), y, k);
    Uint32OfSmall(y);
    Uint32OfSmall(ToUint32(x) + y);
  }

  lemma SumBelow32(u: nat, y: nat, k: nat)
    requires k <= 32 && u < TWO_32 && y < Pow2(k) && u % Pow2(k) == 0
    ensures u + y < TWO_32
  {
    var p, q := Pow2(k), Pow2(32 - k);
    var c := u / p;
    DivModIdentity(u, p);
    Two32Split(k, q, p);
    BelowMultiple(c, q, p, y);
  }

  lemma BitOr32Disjoint(u: nat, y: nat, k: nat)
    requires k <= 32 && u < TWO_32 && y < Pow2(k) && u % Pow2(k) == 0
    ensures BitOr(u, y, 32) == u + y
  {
    Pow2Of32();
    BitOrDisjoint(u, y, k, 32);
  }

  /** 2^32 = 2^(32-k) * 2^k */
  lemma Two32Split(k: nat, q: int, p: int)
    requires k <= 32 && q == Pow2(32 - k) && p == Pow2(k)
    ensures TWO_32 == q * p
  {
    Pow2Add(32 - k, k);
    Pow2Of32();
  }

  /** Dividing ToInt32(x) or ToUint32(x) by 2^s leaves the same k bits, for s + k <= 32. */
  lemma Int32DivLow(x: int, s: nat, k: nat)
    requires s + k <= 32
    ensures (ToInt32(x) / Pow2(s)) % Pow2(k) == (ToUint32(x) / Pow2(s)) % Pow2(k)
  {
    var u, i := ToUint32(x), ToInt32(x);
    var ps, pk, pr := Pow2(s), Pow2(k), Pow2(32 - s - k);
    var t: int := if u < TWO_31 then 0 else -1;
    assert i == u + t * TWO_32 by {
      ToInt32Unsigned(x);
    }
    assert TWO_32 == (pr * pk) * ps by {
      Pow2Add(32 - s - k, k);
      Two32Split(s, pr * pk, ps);
    }
    ScaleSplit(t, pr * pk, ps);
    DivAddMultiple(i, u, t * (pr * pk), ps);
    MulAssoc(t, pr, pk);
    ModAddMultiple(i / ps, u / ps, t * pr, pk);
  }

  /** (x >> s) & (2^k - 1) is bits s .. s+k-1 of x, when they lie within the 32 bits. */
  lemma JsShrMask(x: int, s: nat, k: nat)
    requires s < 32 && s + k <= 32 && k <= 31
    ensures JsAnd(JsShr(x, s), Pow2(k) - 1) == (ToUint32(x) / Pow2(s)) % Pow2(k)
  {
    var y := JsShr(x, s);
    var z := ToInt32(x) / Pow2(s);
    JsShrDiv(x, s);
    JsAndLowMask(y, k);
    assert ToUint32(y) == ToUint32(z);
    Uint32Low(z, k);
    Int32DivLow(x, s, k);
  }

  /** (x << s) & (2^k - 1) is the low k bits of x * 2^s. */
  lemma JsShlMask(x: int, s: nat, k: nat)
    requires s < 32 && k <= 31
    ensures JsAnd(JsShl(x, s), Pow2(k) - 1) == (ToUint32(x) * Pow2(s)) % Pow2(k)
  {
    var u, ps := ToUint32(x), Pow2(s);
    var z := ToInt32(x) * ps;
    var y := JsShl(x, s);
    JsShlPow2(x, s);
    JsAndLowMask(y, k);
    // y, z and u * 2^s all agree modulo 2^32, hence modulo 2^k
    assert ToUint32(y) == ToUint32(z);
    Uint32Low(y, k);
    Uint32Low(z, k);
    var t: int := if u < TWO_31 then 0 else -1;
    ToInt32Unsigned(x);
    CongruentScaled(ToInt32(x), u, t, ps);
    CongruentLow(z, u * ps, t * ps, k);
  }
}
