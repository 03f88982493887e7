/**
 * Integer and bit utilities of nk::utils (utils.h) and the Windows
 * implementations of bsf/bsr/popcnt. A `size_t` is a natural number below
 * 2^64; the bitwise operators the source uses on it (`&`, `~`) are defined bit
 * by bit over naturals, and wrap-around is written out as `% SizeRange`.
 * The signed `abs` helpers work on bv32/bv64 bit patterns.
 */
module BitUtils {
  import opened Wrappers

  function Pow2(k: nat): (r: nat)
    ensures r >= 1
  {
    if k == 0 then 1 else 2 * Pow2(k - 1)
  }

  /** 2^64: the number of `size_t` values. */
  const SizeRange: nat := 0x1_0000_0000_0000_0000

  lemma SizeRangeIsPow2()
    ensures Pow2(64) == SizeRange && Pow2(63) == 0x8000_0000_0000_0000
  {
    assert Pow2(1) == 2;
    assert Pow2(2) == 4 by { Pow2Add(1, 1); }
    assert Pow2(4) == 16 by { Pow2Add(2, 2); }
    assert Pow2(8) == 256 by { Pow2Add(4, 4); }
    assert Pow2(16) == 0x1_0000 by { Pow2Add(8, 8); }
    assert Pow2(32) == 0x1_0000_0000 by { Pow2Add(16, 16); }
    assert Pow2(64) == SizeRange by { Pow2Add(32, 32); }
    assert Pow2(64) == 2 * Pow2(63);
  }

  predicate IsSize(v: nat) { v < SizeRange }

  lemma {:induction false} Pow2Monotone(i: nat, j: nat)
    requires i < j
    ensures Pow2(i) < Pow2(j)
    decreases j
  {
    if i < j - 1 {
      Pow2Monotone(i, j - 1);
    }
  }

  lemma Pow2AtLeast(i: nat, j: nat)
    requires i <= j
    ensures Pow2(i) <= Pow2(j)
  {
    if i < j {
      Pow2Monotone(i, j);
    }
  }

  /** Division with remainder has one answer: the quotient and remainder are determined. */
  lemma DivModUnique(n: int, d: int, q: int, s: int)
    requires d > 0 && 0 <= s < d && n == q * d + s
    ensures n / d == q && n % d == s
  {
    var q', s' := n / d, n % d;
    assert n == q' * d + s';
    if q' > q {
      assert q' * d - q * d == (q' - q) * d;
      MulAtLeast(q' - q, d);
    } else if q' < q {
      assert q * d - q' * d == (q - q') * d;
      MulAtLeast(q - q', d);
    }
  }

  lemma MulAtLeast(a: int, d: int)
    requires a >= 1 && d > 0
    ensures a * d >= d
  {
  }

  /** Halving and doubling the modulus: x mod 2P is twice (x/2 mod P) plus the low bit. */
  lemma ModDouble(x: nat, p: nat)
    requires p > 0
    ensures x % (2 * p) == 2 * ((x / 2) % p) + x % 2
  {
    var h, b := x / 2, x % 2;
    var q, s := h / p, h % p;
    assert h == q * p + s;
    assert x == q * (2 * p) + (2 * s + b);
    DivModUnique(x, 2 * p, q, 2 * s + b);
  }

  // ---------------------------------------------------------------- bitwise

  /** Bitwise AND of two naturals, bit by bit from the lowest. */
  function And(x: nat, y: nat): nat
    decreases x
  {
    if x == 0 || y == 0 then 0
    else 2 * And(x / 2, y / 2) + (if x % 2 == 1 && y % 2 == 1 then 1 else 0)
  }

  /** `~m` on a size_t. */
  function Complement(m: nat): nat
    requires IsSize(m)
  {
    SizeRange - 1 - m
  }

  lemma {:induction false} AndSelf(y: nat)
    ensures And(y, y) == y
    decreases y
  {
    if y > 0 {
      AndSelf(y / 2);
    }
  }

  /** The low n bits of x, built bit by bit. */
  function LowBits(x: nat, n: nat): nat
  {
    if n == 0 then 0 else 2 * LowBits(x / 2, n - 1) + x % 2
  }

  /** The low n bits are x mod 2^n. */
  lemma {:induction false} LowBitsIsMod(x: nat, n: nat)
    ensures LowBits(x, n) == x % Pow2(n)
  {
    if n > 0 {
      LowBitsIsMod(x / 2, n - 1);
      ModDouble(x, Pow2(n - 1));
    }
  }

  lemma {:induction false} LowBitsOfZero(n: nat)
    ensures LowBits(0, n) == 0
  {
    if n > 0 {
      LowBitsOfZero(n - 1);
    }
  }

  /** Masking with 2^n - 1 keeps the low n bits. */
  lemma {:induction false} AndLowMask(x: nat, n: nat)
    ensures And(x, Pow2(n) - 1) == LowBits(x, n)
    decreases n
  {
    if n == 0 {
    } else if x == 0 {
      LowBitsOfZero(n);
    } else {
      var p := Pow2(n - 1);
      var y := Pow2(n) - 1;
      assert y % 2 == 1 && y / 2 == p - 1;
      AndLowMask(x / 2, n - 1);
    }
  }

  /** Masking with 2^n - 2^k keeps bits k..n-1: the low n bits minus the low k bits. */
  lemma {:induction false} AndBandMask(x: nat, k: nat, n: nat)
    requires k <= n
    ensures Pow2(k) <= Pow2(n)
    ensures And(x, Pow2(n) - Pow2(k)) == LowBits(x, n) - LowBits(x, k)
    decreases k
  {
    Pow2AtLeast(k, n);
    if k == n {
    } else if k == 0 {
      AndLowMask(x, n);
    } else if x == 0 {
      LowBitsOfZero(n);
      LowBitsOfZero(k);
    } else {
      var pn, pk := Pow2(n - 1), Pow2(k - 1);
      var y := Pow2(n) - Pow2(k);
      assert y % 2 == 0 && y / 2 == pn - pk;
      AndBandMask(x / 2, k - 1, n - 1);
    }
  }

  // ------------------------------------------------------- align and round

  /**
   * `alignSize(v, a)`: (v + (a - 1)) & ~(a - 1) in size_t arithmetic, where
   * a - 1 wraps to the all-ones value when a is 0.
   */
  function AlignSize(v: nat, a: nat): nat
    requires IsSize(v) && IsSize(a)
  {
    var m := (a + SizeRange - 1) % SizeRange;
    And((v + m) % SizeRange, Complement(m))
  }

  /** For a = 2^k and no wrap-around, alignSize gives the least multiple of a that is not below v. */
  lemma AlignSizeIsLeastMultiple(v: nat, k: nat)
    requires k < 64 && v + Pow2(k) - 1 < SizeRange
    ensures Pow2(k) < SizeRange
    ensures var r := AlignSize(v, Pow2(k)); r % Pow2(k) == 0 && v <= r < v + Pow2(k)
  {
    var a := Pow2(k);
    AlignSizeRoundsDown(v, k);
    AlignedDown(v + a - 1, a);
  }

  /** With a = 2^k, alignSize clears the low k bits of v + a - 1. */
  lemma AlignSizeRoundsDown(v: nat, k: nat)
    requires k < 64 && v + Pow2(k) - 1 < SizeRange
    ensures Pow2(k) < SizeRange
    ensures AlignSize(v, Pow2(k)) == (v + Pow2(k) - 1) - (v + Pow2(k) - 1) % Pow2(k)
  {
    var a := Pow2(k);
    assert a < SizeRange by {
      Pow2Monotone(k, 64);
      SizeRangeIsPow2();
    }
    var x := v + a - 1;
    AlignSizeUnfold(v, a);
    AndHighMask(x, k);
    LowBitsIsMod(x, k);
  }

  /** Masking a size_t with ~(2^k - 1) clears its low k bits. */
  lemma AndHighMask(x: nat, k: nat)
    requires IsSize(x) && k <= 64
    ensures Pow2(k) <= SizeRange
    ensures And(x, SizeRange - Pow2(k)) == x - LowBits(x, k)
  {
    SizeRangeIsPow2();
    AndBandMask(x, k, 64);
    LowBitsIsMod(x, 64);
    ModBelow(x, SizeRange);
  }

  lemma ModBelow(x: nat, d: nat)
    requires x < d
    ensures x % d == x
  {
  }

  lemma AlignSizeUnfold(v: nat, a: nat)
    requires 1 <= a < SizeRange && v + a - 1 < SizeRange
    ensures AlignSize(v, a) == And(v + a - 1, SizeRange - a)
  {
    var m := (a + SizeRange - 1) % SizeRange;
    assert m == a - 1;
    assert (v + m) % SizeRange == v + a - 1;
  }

  /** Rounding x down to a multiple of a: x - x % a. */
  lemma AlignedDown(x: nat, a: nat)
    requires a > 0
    ensures (x - x % a) % a == 0 && x - a < x - x % a <= x
  {
    var q := x / a;
    assert x - x % a == q * a;
    DivModUnique(q * a, a, q, 0);
  }

  /**
   * `roundUp(value, roundTo)`: ((value + roundTo - 1) / roundTo) * roundTo in
   * size_t arithmetic; roundTo must not be 0 (the division would trap).
   */
  function RoundUp(value: nat, roundTo: nat): nat
    requires IsSize(value) && IsSize(roundTo) && roundTo > 0
  {
    var q := ((value + roundTo - 1) % SizeRange) / roundTo;
    (q * roundTo) % SizeRange
  }

  /** Without wrap-around roundUp gives the least multiple of roundTo that is not below value. */
  lemma RoundUpIsLeastMultiple(value: nat, roundTo: nat)
    requires IsSize(roundTo) && roundTo > 0 && value + roundTo - 1 < SizeRange
    ensures IsSize(value)
    ensures var r := RoundUp(value, roundTo); r % roundTo == 0 && value <= r < value + roundTo
  {
    var t := value + roundTo - 1;
    assert t % SizeRange == t by { DivModUnique(t, SizeRange, 0, t); }
    var q := t / roundTo;
    assert q * roundTo + t % roundTo == t;
    assert (q * roundTo) % SizeRange == q * roundTo by { DivModUnique(q * roundTo, SizeRange, 0, q * roundTo); }
    DivModUnique(q * roundTo, roundTo, q, 0);
  }

  /** `isPtrAligned`: alignments 0 and 1 accept every address; otherwise the address must be a multiple. */
  predicate IsPtrAligned(ptr: nat, alignment: nat)
  {
    if alignment > 1 then ptr % alignment == 0 else true
  }

  /** An address is aligned exactly when rounding it up to the alignment leaves it unchanged. */
  lemma PtrAlignedIffRoundUpFixed(ptr: nat, alignment: nat)
    requires IsSize(alignment) && 0 < alignment && ptr + alignment - 1 < SizeRange
    ensures IsSize(ptr)
    ensures IsPtrAligned(ptr, alignment) <==> RoundUp(ptr, alignment) == ptr
  {
    RoundUpIsLeastMultiple(ptr, alignment);
    if ptr % alignment == 0 {
      MultiplesWithinGap(ptr, RoundUp(ptr, alignment), alignment);
    }
  }

  /** Two multiples of a that are less than a apart are equal. */
  lemma MultiplesWithinGap(p: nat, r: nat, a: nat)
    requires a > 0 && p % a == 0 && r % a == 0 && p <= r < p + a
    ensures r == p
  {
    var qp := p / a;
    assert p == qp * a;
    DivModUnique(r, a, qp, r - p);
  }

  lemma MulMonotone(a: nat, b: nat, d: nat)
    requires a <= b
    ensures a * d <= b * d
  {
  }

  // ------------------------------------------------------ powers of two

  /** `isPowerOfTwo`: (v & (v - 1)) == 0 in size_t arithmetic; this also holds for 0. */
  predicate IsPowerOfTwo(v: nat)
    requires IsSize(v)
  {
    And(v, (v + SizeRange - 1) % SizeRange) == 0
  }

  /** `popcnt`: the number of set bits. */
  function Popcnt(v: nat): (r: nat)
    ensures r == 0 <==> v == 0
    ensures v > 0 ==> r <= HighBit(v) + 1
    decreases v
  {
    if v == 0 then 0 else v % 2 + Popcnt(v / 2)
  }

  /** isPowerOfTwo holds exactly for 0 and the values with a single set bit. */
  lemma {:induction false} PowerOfTwoIffSingleBit(v: nat)
    requires IsSize(v)
    ensures IsPowerOfTwo(v) <==> v == 0 || Popcnt(v) == 1
    decreases v
  {
    if v > 0 {
      var w := v - 1;
      assert (v + SizeRange - 1) % SizeRange == w by { DivModUnique(v + SizeRange - 1, SizeRange, 1, w); }
      if v == 1 {
      } else if v % 2 == 1 {
        assert w / 2 == v / 2;
        AndSelf(v / 2);
        assert And(v, w) == 2 * (v / 2);
      } else {
        assert w / 2 == v / 2 - 1;
        assert And(v, w) == 2 * And(v / 2, v / 2 - 1);
        PowerOfTwoIffSingleBit(v / 2);
        assert (v / 2 + SizeRange - 1) % SizeRange == v / 2 - 1 by {
          DivModUnique(v / 2 + SizeRange - 1, SizeRange, 1, v / 2 - 1);
        }
      }
    }
  }

  lemma {:induction false} PopcntOfPow2(k: nat)
    ensures Popcnt(Pow2(k)) == 1
    decreases k
  {
    if k > 0 {
      PopcntOfPow2(k - 1);
      assert Pow2(k) / 2 == Pow2(k - 1);
    }
  }

  /** Every power of two below 2^64 passes isPowerOfTwo. */
  lemma PowerOfTwoHolds(k: nat)
    requires k < 64
    ensures Pow2(k) < SizeRange && IsPowerOfTwo(Pow2(k))
  {
    Pow2Monotone(k, 64);
    SizeRangeIsPow2();
    PopcntOfPow2(k);
    PowerOfTwoIffSingleBit(Pow2(k));
  }

  // ------------------------------------------------------- bit scans

  /** The index of the highest set bit of a positive value. */
  function HighBit(v: nat): (r: nat)
    requires v >= 1
    ensures Pow2(r) <= v < Pow2(r + 1)
    decreases v
  {
    if v == 1 then 0 else 1 + HighBit(v / 2)
  }

  /** The index of the lowest set bit of a positive value: v is 2^r times an odd number. */
  function LowBit(v: nat): (r: nat)
    requires v >= 1
    ensures v % Pow2(r) == 0 && (v / Pow2(r)) % 2 == 1
    ensures Pow2(r) <= v
    decreases v
  {
    if v % 2 == 1 then 0
    else
      var r' := LowBit(v / 2);
      LowBitStep(v, Pow2(r'));
      1 + r'
  }

  lemma LowBitStep(v: nat, p: nat)
    requires p > 0 && v % 2 == 0 && (v / 2) % p == 0 && ((v / 2) / p) % 2 == 1
    ensures v % (2 * p) == 0 && (v / (2 * p)) % 2 == 1
  {
    var q := (v / 2) / p;
    assert v / 2 == q * p;
    assert v == q * (2 * p);
    DivModUnique(v, 2 * p, q, 0);
  }

  /** A bit index of a size_t is below 64. */
  lemma IndexBelow64(v: nat, r: nat)
    requires IsSize(v) && Pow2(r) <= v
    ensures r < 64
  {
    if r >= 64 {
      Pow2AtLeast(64, r);
      SizeRangeIsPow2();
    }
  }

  /** `bsr`: 64 for 0, otherwise the index r of the highest set bit, 2^r <= v < 2^(r+1). */
  function Bsr(v: nat): (r: nat)
    requires IsSize(v)
    ensures r == 64 <==> v == 0
    ensures r < 64 ==> Pow2(r) <= v < Pow2(r + 1)
  {
    if v == 0 then 64
    else
      var r := HighBit(v);
      IndexBelow64(v, r);
      r
  }

  /** `bsf`: 64 for 0, otherwise the index r of the lowest set bit, v = 2^r * odd. */
  function Bsf(v: nat): (r: nat)
    requires IsSize(v)
    ensures r == 64 <==> v == 0
    ensures r < 64 ==> v % Pow2(r) == 0 && (v / Pow2(r)) % 2 == 1
  {
    if v == 0 then 64
    else
      var r := LowBit(v);
      IndexBelow64(v, r);
      r
  }

  lemma {:induction false} BitsOfPow2(k: nat)
    ensures LowBit(Pow2(k)) == k && HighBit(Pow2(k)) == k
  {
    if k > 0 {
      BitsOfPow2(k - 1);
      assert Pow2(k) / 2 == Pow2(k - 1);
    }
  }

  /** On a power of two, bsf and bsr both give its exponent. */
  lemma BitScansOfPow2(k: nat)
    requires k < 64
    ensures Pow2(k) < SizeRange && Bsf(Pow2(k)) == k && Bsr(Pow2(k)) == k
  {
    Pow2Monotone(k, 64);
    SizeRangeIsPow2();
    BitsOfPow2(k);
  }

  /** For a nonzero value the lowest set bit is not above the highest. */
  lemma BsfAtMostBsr(v: nat)
    requires IsSize(v) && v > 0
    ensures Bsf(v) <= Bsr(v)
  {
    var l, h := Bsf(v), Bsr(v);
    if l > h {
      Pow2AtLeast(h + 1, l);
    }
  }

  lemma {:induction false} Pow2Add(i: nat, j: nat)
    ensures Pow2(i + j) == Pow2(i) * Pow2(j)
    decreases j
  {
    if j > 0 {
      Pow2Add(i, j - 1);
      assert Pow2(i + j) == 2 * Pow2(i + j - 1);
    }
  }

  /**
   * `nextPowerOfTwo(v)`: 1 << (bsr(v - 1) + 1). For 2 <= v <= 2^63 this is the
   * least power of two not below v; for v <= 1 or v > 2^63 the shift count
   * is 64 or 65, an out-of-range shift, modelled as None.
   */
  function NextPowerOfTwo(v: nat): (r: Option<nat>)
    requires IsSize(v)
    ensures r.None? <==> v <= 1 || v > 0x8000_0000_0000_0000
    ensures r.Some? ==> IsSize(r.value) && IsPowerOfTwo(r.value) && v <= r.value < 2 * v
  {
    var w := (v + SizeRange - 1) % SizeRange;
    var e := Bsr(w) + 1;
    NextPowerOfTwoExponent(v, w, e - 1);
    if e >= 64 then None
    else
      PowerOfTwoHolds(e);
      Some(Pow2(e))
  }

  lemma NextPowerOfTwoExponent(v: nat, w: nat, b: nat)
    requires IsSize(v) && w == (v + SizeRange - 1) % SizeRange && IsSize(w) && b == Bsr(w)
    ensures b + 1 >= 64 <==> v <= 1 || v > 0x8000_0000_0000_0000
    ensures b + 1 < 64 ==> v <= Pow2(b + 1) < 2 * v
  {
    SizeRangeIsPow2();
    if 2 <= v <= 0x8000_0000_0000_0000 {
      if b >= 63 { Pow2AtLeast(63, b); }
    } else if v != 1 {
      if b < 63 { Pow2AtLeast(b + 1, 63); }
    }
  }

  // ---------------------------------------------------------------- abs

  /**
   * `abs` on int32: a negative value (sign bit set) becomes ~v + 1, its two's
   * complement negation; the minimum value maps to itself, the only result
   * with the sign bit still set.
   */
  function Abs32(v: bv32): (r: bv32)
    ensures v >= 0x8000_0000 ==> r == 0 - v
    ensures v < 0x8000_0000 ==> r == v
    ensures r >= 0x8000_0000 <==> v == 0x8000_0000
  {
    if v >= 0x8000_0000 then !v + 1 else v
  }

  /** `abs` on int64, with the same shape as Abs32. */
  function Abs64(v: bv64): (r: bv64)
    ensures v >= 0x8000_0000_0000_0000 ==> r == 0 - v
    ensures v < 0x8000_0000_0000_0000 ==> r == v
    ensures r >= 0x8000_0000_0000_0000 <==> v == 0x8000_0000_0000_0000
  {
    if v >= 0x8000_0000_0000_0000 then !v + 1 else v
  }

  /** abs applied twice gives back abs: the result is its own absolute value. */
  lemma Abs32Idempotent(v: bv32)
    ensures Abs32(Abs32(v)) == Abs32(v)
  {
  }

  // ------------------------------------------------------ max, min, clamp

  /** `max`: the first argument only when strictly larger. */
  function Max(a: int, b: int): (r: int)
    ensures r >= a && r >= b && (r == a || r == b)
  {
    if a > b then a else b
  }

  /** `min`: the first argument only when strictly smaller. */
  function Min(a: int, b: int): (r: int)
    ensures r <= a && r <= b && (r == a || r == b)
  {
    if a < b then a else b
  }

  /** `clamp`: the upper bound wins when value >= maxValue, then the lower bound when value <= minValue. */
  function Clamp(value: int, minValue: int, maxValue: int): (r: int)
    ensures value >= maxValue ==> r == maxValue
    ensures value < maxValue && value <= minValue ==> r == minValue
    ensures minValue < value < maxValue ==> r == value
  {
    if value >= maxValue then maxValue else if value <= minValue then minValue else value
  }

  /** On a proper range clamp stays inside it and agrees with max(minValue, min(value, maxValue)). */
  lemma ClampIsMaxOfMin(value: int, minValue: int, maxValue: int)
    requires minValue <= maxValue
    ensures minValue <= Clamp(value, minValue, maxValue) <= maxValue
    ensures Clamp(value, minValue, maxValue) == Max(minValue, Min(value, maxValue))
  {
  }
}
