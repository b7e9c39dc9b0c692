/// 32-bit integer arithmetic as JavaScript performs it on Numbers.
///
/// JavaScript's bitwise operators first convert their operands to 32-bit
/// integers (ToInt32 / ToUint32 in the ECMAScript language specification),
/// work on the two's-complement bit pattern, and give a signed 32-bit result;
/// `>>> 0` turns that back into the unsigned value. Values here are Dafny
/// integers; the conversions are written out explicitly, and shifts and the
/// bitwise operations are defined bit by bit (by repeated halving), so that
/// every fact about them is proved by induction on the number of bits.
module Bits {

  const TwoTo31: nat := 0x8000_0000
  const TwoTo32: nat := 0x1_0000_0000

  /** 2 raised to the power k. */
  function Pow2(k: nat): (r: nat)
    ensures r >= 1
  {
    if k == 0 then 1 else 2 * Pow2(k - 1)
  }

  lemma {:induction false} Pow2Add(a: nat, b: nat)
    ensures Pow2(a + b) == Pow2(a) * Pow2(b)
  {
    if a > 0 {
      Pow2Add(a - 1, b);
      assert Pow2(a + b) == 2 * Pow2(a - 1 + b);
    }
  }

  lemma {:induction false} Pow2Monotone(a: nat, b: nat)
    requires a <= b
    ensures Pow2(a) <= Pow2(b)
  {
    if a < b {
      Pow2Monotone(a, b - 1);
    }
  }

  lemma Pow2Constants()
    ensures Pow2(8) == 256
    ensures Pow2(16) == 65536
    ensures Pow2(24) == 16777216
    ensures Pow2(31) == TwoTo31
    ensures Pow2(32) == TwoTo32
  {
    assert Pow2(8) == 256;
    assert Pow2(16) == 65536 by { Pow2Add(8, 8); }
    assert Pow2(24) == 16777216 by { Pow2Add(16, 8); }
    assert Pow2(31) == TwoTo31 by { Pow2Add(24, 7); }
  }

  // ---------------------------------------------------------------------
  // Division and remainder facts.

  /** A non-zero multiple of d is at least d away from 0. */
  lemma {:induction false} MulAwayFromZero(d: int, k: int)
    requires d > 0
    ensures k >= 1 ==> d * k >= d
    ensures k <= -1 ==> d * k <= -d
    decreases if k >= 0 then k else -k
  {
    if k > 1 {
      MulAwayFromZero(d, k - 1);
      assert d * k == d * (k - 1) + d;
    } else if k < -1 {
      MulAwayFromZero(d, k + 1);
      assert d * k == d * (k + 1) - d;
    }
  }

  /** Quotient and remainder are determined by n == d * q + r with 0 <= r < d. */
  lemma DivModUnique(n: int, d: int, q: int, r: int)
    requires 0 < d && 0 <= r < d && n == d * q + r
    ensures n / d == q && n % d == r
  {
    var q0, r0 := n / d, n % d;
    assert d * (q0 - q) == r - r0 by {
      assert n == d * q0 + r0;
      assert d * (q0 - q) == d * q0 - d * q;
    }
    MulAwayFromZero(d, q0 - q);
  }

  // ---------------------------------------------------------------------
  // Shifting right and keeping the low bits, by repeated halving.

  /** Multiplying by the same natural number keeps the order. */
  lemma MulMonotone(a: nat, b: nat, c: nat)
    requires a <= b
    ensures a * c <= b * c
  {
    assert b * c == a * c + (b - a) * c;
  }

  /** x rounded down to a multiple of m: a multiple of m within m of x. */
  function RoundDown(x: nat, m: nat): (r: nat)
    requires m > 0
    ensures r % m == 0 && r <= x < r + m
  {
    DivModUnique(x - x % m, m, x / m, 0);
    x - x % m
  }

  /** Multiplication associates. */
  lemma MulAssociates(a: int, b: int, c: int)
    ensures a * (b * c) == (a * b) * c
  {
  }

  /** Multiples of c add up to a multiple of c. */
  lemma MultiplesAdd(a: int, b: int, c: int)
    ensures a * c + b * c == (a + b) * c
  {
  }

  /** A multiple of count * size, moved on by i * size, is a multiple of size. */
  lemma MultipleOfPart(n: nat, whole: nat, size: nat, count: nat, i: nat)
    requires size > 0 && whole > 0 && whole == count * size && n % whole == 0
    ensures (n + i * size) % size == 0
  {
    var q := n / whole;
    assert n == whole * q;
    MulAssociates(q, count, size);
    MultiplesAdd(q * count, i, size);
    DivModUnique(n + i * size, size, q * count + i, 0);
  }

  /** Halving 2h + b, for a bit b, gives back h and b. */
  lemma Halve(h: int, b: int)
    requires 0 <= b < 2
    ensures (2 * h + b) / 2 == h && (2 * h + b) % 2 == b
  {
    DivModUnique(2 * h + b, 2, h, b);
  }

  /** Multiplying by a doubled factor doubles the product. */
  lemma MulDouble(q: int, p: int)
    ensures q * (2 * p) == 2 * (q * p)
  {
  }

  /** x shifted right by k bits: x divided by 2^k, rounded down. */
  function Shr(x: nat, k: nat): nat
  {
    if k == 0 then x else Shr(x / 2, k - 1)
  }

  /** The low k bits of x: x modulo 2^k. */
  function Low(x: nat, k: nat): nat
  {
    if k == 0 then 0 else 2 * Low(x / 2, k - 1) + x % 2
  }

  /** Shifting right never increases a value. */
  lemma {:induction false} ShrAtMost(x: nat, k: nat)
    ensures Shr(x, k) <= x
  {
    if k > 0 {
      ShrAtMost(x / 2, k - 1);
    }
  }

  /** The low k bits are below 2^k and at most the value itself. */
  lemma {:induction false} LowBound(x: nat, k: nat)
    ensures Low(x, k) < Pow2(k) && Low(x, k) <= x
  {
    if k > 0 {
      LowBound(x / 2, k - 1);
    }
  }

  /** x splits into its bits above k and its low k bits. */
  lemma {:induction false} ShrLow(x: nat, k: nat)
    ensures x == Shr(x, k) * Pow2(k) + Low(x, k)
  {
    if k > 0 {
      var q, l := Shr(x / 2, k - 1), Low(x / 2, k - 1);
      ShrLow(x / 2, k - 1);
      assert Shr(x, k) == q && Low(x, k) == 2 * l + x % 2;
      assert Pow2(k) == 2 * Pow2(k - 1);
      MulDouble(q, Pow2(k - 1));
    }
  }

  /** Shr and Low are the quotient and remainder of division by 2^k. */
  lemma ShrLowDivMod(x: nat, k: nat)
    ensures Shr(x, k) == x / Pow2(k) && Low(x, k) == x % Pow2(k)
  {
    ShrLow(x, k);
    LowBound(x, k);
    DivModUnique(x, Pow2(k), Shr(x, k), Low(x, k));
  }

  /** Two shifts in a row add up. */
  lemma {:induction false} ShrShr(x: nat, a: nat, b: nat)
    ensures Shr(Shr(x, a), b) == Shr(x, a + b)
  {
    if a > 0 {
      ShrShr(x / 2, a - 1, b);
    }
  }

  /** A value below 2^(a+b) shifted right by a is below 2^b. */
  lemma {:induction false} ShrBound(x: nat, a: nat, b: nat)
    requires x < Pow2(a + b)
    ensures Shr(x, a) < Pow2(b)
  {
    if a > 0 {
      assert Pow2(a + b) == 2 * Pow2(a - 1 + b);
      ShrBound(x / 2, a - 1, b);
    }
  }

  /** A value below 2^k is its own low k bits. */
  lemma {:induction false} LowOfSmall(x: nat, k: nat)
    requires x < Pow2(k)
    ensures Low(x, k) == x
  {
    if k > 0 {
      assert Pow2(k) == 2 * Pow2(k - 1);
      LowOfSmall(x / 2, k - 1);
    }
  }

  /** Clearing the low k bits leaves nothing below bit k. */
  lemma {:induction false} LowOfRoundDown(x: nat, k: nat)
    ensures Low(x, k) <= x && Low(x - Low(x, k), k) == 0
  {
    if k > 0 {
      var h, l := x / 2, Low(x / 2, k - 1);
      LowOfRoundDown(h, k - 1);
      var y := x - Low(x, k);
      assert y == 2 * (h - l) + 0;
      Halve(h - l, 0);
    }
  }

  /** Adding a multiple of 2^k does not change the low k bits. */
  lemma {:induction false} LowAddMultiple(x: nat, m: nat, k: nat)
    ensures Low(x + m * Pow2(k), k) == Low(x, k)
  {
    if k > 0 {
      var p := Pow2(k - 1);
      assert Pow2(k) == 2 * p;
      MulDouble(m, p);
      var y := x + m * Pow2(k);
      assert y == 2 * (x / 2 + m * p) + x % 2;
      Halve(x / 2 + m * p, x % 2);
      LowAddMultiple(x / 2, m, k - 1);
    }
  }

  /** The low j bits of the low k bits are the low j bits, for j <= k. */
  lemma {:induction false} LowLow(x: nat, k: nat, j: nat)
    requires j <= k
    ensures Low(Low(x, k), j) == Low(x, j)
  {
    if j > 0 {
      var l := Low(x / 2, k - 1);
      Halve(l, x % 2);
      LowLow(x / 2, k - 1, j - 1);
    }
  }

  /** Shr and Low take apart h * 2^k + l for l below 2^k. */
  lemma ShrLowOfSum(h: nat, l: nat, k: nat)
    requires l < Pow2(k)
    ensures Shr(h * Pow2(k) + l, k) == h && Low(h * Pow2(k) + l, k) == l
  {
    ShrLowDivMod(h * Pow2(k) + l, k);
    DivModUnique(h * Pow2(k) + l, Pow2(k), h, l);
  }

  /** An address in the same block of 2^k as x (x rounded down, plus less than
      2^k) has as its low k bits its offset in that block. */
  lemma LowInBlock(x: nat, y: nat, k: nat)
    requires x - Low(x, k) <= y < x - Low(x, k) + Pow2(k)
    ensures Low(y, k) == y - (x - Low(x, k))
  {
    ShrLow(x, k);
    var h := Shr(x, k);
    assert x - Low(x, k) == h * Pow2(k);
    ShrLowOfSum(h, y - h * Pow2(k), k);
  }

  /** Two values round down to the same multiple of 2^k exactly when the
      second lies within 2^k of the first one's rounded value. */
  lemma SameRoundDown(x: nat, y: nat, k: nat)
    ensures var r := x - Low(x, k);
            y - Low(y, k) == r <==> r <= y <= r + Pow2(k) - 1
  {
    LowBound(x, k);
    LowBound(y, k);
    var r := x - Low(x, k);
    if r <= y <= r + Pow2(k) - 1 {
      LowInBlock(x, y, k);
    }
  }

  // ---------------------------------------------------------------------
  // ToUint32, ToInt32 and the JavaScript operators built on them.

  /** ToUint32: the unsigned 32-bit value with the same low 32 bits as x
      (what `x >>> 0` yields). */
  function ToUint32(x: int): (r: nat)
    ensures r < TwoTo32
    ensures 0 <= x < TwoTo32 ==> r == x
  {
    x % TwoTo32
  }

  /** ToInt32: the signed 32-bit value with the same low 32 bits as x. */
  function ToInt32(x: int): (r: int)
    ensures -(TwoTo31 as int) <= r < TwoTo31
    ensures ToUint32(r) == ToUint32(x)
    ensures 0 <= x < TwoTo31 ==> r == x
  {
    var u := x % TwoTo32;
    if u >= TwoTo31 then u - TwoTo32 else u
  }

  /** JavaScript `a << count`. */
  function ShiftLeft(a: int, count: int): int
  {
    ToInt32(ToInt32(a) * Pow2(count % 32))
  }

  /** JavaScript `a >>> count`. */
  function ShiftRightUnsigned(a: int, count: int): nat
  {
    Shr(ToUint32(a), count % 32)
  }

  /** JavaScript `~a`. */
  function BitNot(a: int): (r: int)
    ensures ToUint32(r) == TwoTo32 - 1 - ToUint32(a)
  {
    -ToInt32(a) - 1
  }

  /** JavaScript `a & b`. */
  function BitAnd(a: int, b: int): int
  {
    ToInt32(And(ToUint32(a), ToUint32(b), 32))
  }

  /** JavaScript `a | b`. */
  function BitOr(a: int, b: int): int
  {
    ToInt32(Or(ToUint32(a), ToUint32(b), 32))
  }

  /** Two values with the same low 32 bits differ by a multiple of 2^32. */
  lemma SameLow32(y: int, z: int)
    requires ToUint32(y) == ToUint32(z)
    ensures y - z == TwoTo32 * (y / TwoTo32 - z / TwoTo32)
  {
  }

  /** Adding a multiple of 2^32 keeps the low 32 bits. */
  lemma Low32AddMultiple(y: int, c: int)
    ensures ToUint32(y + TwoTo32 * c) == ToUint32(y)
  {
    DivModUnique(y + TwoTo32 * c, TwoTo32, y / TwoTo32 + c, y % TwoTo32);
  }

  /** A shift left by 8, as in `(acc << 8) + x`, keeps the low 32 bits of acc * 256 + x. */
  lemma ShiftLeft8(acc: int, x: int)
    ensures ToUint32(ShiftLeft(acc, 8) + x) == ToUint32(ToUint32(acc) * 256 + x)
  {
    Pow2Constants();
    var a, u := ToInt32(acc), ToUint32(acc);
    var t := ToInt32(a * 256);
    assert ShiftLeft(acc, 8) == t;
    SameLow32(a, u);
    SameLow32(t, a * 256);
    var d1 := a / TwoTo32 - u / TwoTo32;
    var d2 := t / TwoTo32 - (a * 256) / TwoTo32;
    assert a == u + TwoTo32 * d1;
    assert t == a * 256 + TwoTo32 * d2;
    assert a * 256 == u * 256 + TwoTo32 * (256 * d1);
    assert t + x == u * 256 + x + TwoTo32 * (256 * d1 + d2);
    Low32AddMultiple(u * 256 + x, 256 * d1 + d2);
  }

  /** -p for 1 <= p <= 2^31 is a signed 32-bit value whose unsigned reading is 2^32 - p. */
  lemma NegativeInt32(p: nat)
    requires 1 <= p <= TwoTo31
    ensures ToInt32(-(p as int)) == -(p as int)
    ensures ToUint32(-(p as int)) == TwoTo32 - p
  {
    DivModUnique(-(p as int), TwoTo32, -1, TwoTo32 - p);
  }

  /** 0xFFFFFFFF read as a signed 32-bit value is -1. */
  lemma AllOnesInt32()
    ensures ToInt32(0xFFFF_FFFF) == -1
  {
  }

  /** `0xFFFFFFFF << count` is -2^count, as JavaScript computes it. */
  lemma ShiftLeftAllOnes(count: nat)
    requires count < 32
    ensures ShiftLeft(0xFFFF_FFFF, count) == ToInt32(-(Pow2(count) as int))
  {
    AllOnesInt32();
    ModOfSmall(count, 32);
    var m := Pow2(count % 32);
    assert m == Pow2(count);
    assert ToInt32(0xFFFF_FFFF) * m == -(m as int);
  }

  /** A remainder of a value already in range is the value. */
  lemma ModOfSmall(x: int, m: int)
    requires 0 <= x < m
    ensures x % m == x
  {
  }

  /** The mask expression `(0xFFFFFFFF << count) >>> 0` for 1 <= count <= 31 is
      2^32 - 2^count. */
  lemma AllOnesShifted(count: nat)
    requires count < 32
    ensures ToUint32(ShiftLeft(0xFFFF_FFFF, count)) == TwoTo32 - Pow2(count)
  {
    Pow2Monotone(count, 31);
    Pow2Constants();
    ShiftLeftAllOnes(count);
    NegativeInt32(Pow2(count));
  }

  /** For count 32, JavaScript shifts by 32 % 32 == 0, so the mask stays all ones. */
  lemma AllOnesShifted32()
    ensures ToUint32(ShiftLeft(0xFFFF_FFFF, 32)) == 0xFFFF_FFFF
  {
    AllOnesInt32();
    NegativeInt32(1);
  }

  // ---------------------------------------------------------------------
  // Bits and the bitwise operations on the low w bits.

  /** Bit j of n (bit 0 is the least significant). */
  function Bit(n: nat, j: nat): (b: nat)
    ensures b < 2
  {
    if j == 0 then n % 2 else Bit(n / 2, j - 1)
  }

  /** Bitwise AND of the low w bits of a and b. */
  function And(a: nat, b: nat, w: nat): nat
  {
    if w == 0 then 0
    else 2 * And(a / 2, b / 2, w - 1) + (if a % 2 == 1 && b % 2 == 1 then 1 else 0)
  }

  /** Bitwise OR of the low w bits of a and b. */
  function Or(a: nat, b: nat, w: nat): nat
  {
    if w == 0 then 0
    else 2 * Or(a / 2, b / 2, w - 1) + (if a % 2 == 1 || b % 2 == 1 then 1 else 0)
  }

  /** The w-bit value whose bits k .. w-1 are set and whose low k bits are clear. */
  function HighMask(w: nat, k: nat): nat
    requires k <= w
  {
    if w == 0 then 0
    else if k == 0 then 2 * HighMask(w - 1, 0) + 1
    else 2 * HighMask(w - 1, k - 1)
  }

  /** The AND of w-bit values fits in w bits. */
  lemma {:induction false} AndBound(a: nat, b: nat, w: nat)
    ensures And(a, b, w) < Pow2(w)
  {
    if w > 0 {
      AndBound(a / 2, b / 2, w - 1);
    }
  }

  /** The OR of w-bit values fits in w bits. */
  lemma {:induction false} OrBound(a: nat, b: nat, w: nat)
    ensures Or(a, b, w) < Pow2(w)
  {
    if w > 0 {
      OrBound(a / 2, b / 2, w - 1);
    }
  }

  /** HighMask(w, k) is 2^w - 2^k. */
  lemma {:induction false} HighMaskValue(w: nat, k: nat)
    requires k <= w
    ensures HighMask(w, k) == Pow2(w) - Pow2(k)
  {
    if w > 0 {
      HighMaskValue(w - 1, if k == 0 then 0 else k - 1);
    }
  }

  /** Each bit of an AND is the product of the operands' bits. */
  lemma {:induction false} AndBit(a: nat, b: nat, w: nat, j: nat)
    requires j < w
    ensures Bit(And(a, b, w), j) == Bit(a, j) * Bit(b, j)
  {
    var c := if a % 2 == 1 && b % 2 == 1 then 1 else 0;
    Halve(And(a / 2, b / 2, w - 1), c);
    if j > 0 {
      AndBit(a / 2, b / 2, w - 1, j - 1);
    }
  }

  /** Each bit of an OR is set when either operand's bit is. */
  lemma {:induction false} OrBit(a: nat, b: nat, w: nat, j: nat)
    requires j < w
    ensures Bit(Or(a, b, w), j) == if Bit(a, j) == 1 || Bit(b, j) == 1 then 1 else 0
  {
    var c := if a % 2 == 1 || b % 2 == 1 then 1 else 0;
    Halve(Or(a / 2, b / 2, w - 1), c);
    if j > 0 {
      OrBit(a / 2, b / 2, w - 1, j - 1);
    }
  }

  /** HighMask(w, k) has exactly the bits k .. w-1 set. */
  lemma {:induction false} HighMaskBit(w: nat, k: nat, j: nat)
    requires k <= w && j < w
    ensures Bit(HighMask(w, k), j) == if j >= k then 1 else 0
  {
    var k' := if k == 0 then 0 else k - 1;
    var e := if k == 0 then 1 else 0;
    assert HighMask(w, k) == 2 * HighMask(w - 1, k') + e;
    Halve(HighMask(w - 1, k'), e);
    if j > 0 {
      HighMaskBit(w - 1, k', j - 1);
    }
  }

  /** 2^w - 1 - x has the complementary bits of x below bit w. */
  lemma {:induction false} ComplementBit(x: nat, w: nat, j: nat)
    requires x < Pow2(w) && j < w
    ensures Bit(Pow2(w) - 1 - x, j) == 1 - Bit(x, j)
  {
    var p := Pow2(w - 1);
    assert Pow2(w) == 2 * p;
    assert Pow2(w) - 1 - x == 2 * (p - 1 - x / 2) + (1 - x % 2);
    Halve(p - 1 - x / 2, 1 - x % 2);
    if j > 0 {
      ComplementBit(x / 2, w - 1, j - 1);
    }
  }

  /** Bits at or above the width of n are clear. */
  lemma {:induction false} BitAboveWidth(n: nat, w: nat, j: nat)
    requires n < Pow2(w) && j >= w
    ensures Bit(n, j) == 0
  {
    if w > 0 {
      assert Pow2(w) == 2 * Pow2(w - 1);
      BitAboveWidth(n / 2, w - 1, j - 1);
    } else if j > 0 {
      BitAboveWidth(n / 2, 0, j - 1);
    }
  }

  /** Bit j of n shifted right by d is bit j + d of n. */
  lemma {:induction false} BitOfShr(n: nat, d: nat, j: nat)
    ensures Bit(Shr(n, d), j) == Bit(n, j + d)
  {
    if d > 0 {
      BitOfShr(n / 2, d - 1, j);
    }
  }

  /** Below d, the low d bits of n are the bits of n. */
  lemma {:induction false} BitOfLow(n: nat, d: nat, j: nat)
    requires j < d
    ensures Bit(Low(n, d), j) == Bit(n, j)
  {
    Halve(Low(n / 2, d - 1), n % 2);
    if j > 0 {
      BitOfLow(n / 2, d - 1, j - 1);
    }
  }

  /** AND with a mask whose bits k .. w-1 are set clears the low k bits. */
  lemma {:induction false} AndHighMask(x: nat, w: nat, k: nat)
    requires k <= w && x < Pow2(w)
    ensures And(x, HighMask(w, k), w) == x - Low(x, k)
  {
    if w > 0 {
      var k' := if k == 0 then 0 else k - 1;
      var e := if k == 0 then 1 else 0;
      var h := HighMask(w - 1, k');
      assert HighMask(w, k) == 2 * h + e;
      Halve(h, e);
      assert Pow2(w) == 2 * Pow2(w - 1);
      AndHighMask(x / 2, w - 1, k');
      LowBound(x / 2, k');
    }
  }

  /** AND with 0 is 0. */
  lemma {:induction false} AndZero(x: nat, w: nat)
    ensures And(x, 0, w) == 0
  {
    if w > 0 {
      AndZero(x / 2, w - 1);
    }
  }

  /** OR with 0 keeps a w-bit value. */
  lemma {:induction false} OrZero(x: nat, w: nat)
    requires x < Pow2(w)
    ensures Or(x, 0, w) == x
  {
    if w > 0 {
      assert Pow2(w) == 2 * Pow2(w - 1);
      OrZero(x / 2, w - 1);
    }
  }

  /** AND with 2^k - 1 keeps the low k bits. */
  lemma {:induction false} AndLowMask(x: nat, w: nat, k: nat)
    requires k <= w
    ensures And(x, Pow2(k) - 1, w) == Low(x, k)
  {
    if k == 0 {
      AndZero(x, w);
    } else {
      var p := Pow2(k - 1);
      assert Pow2(k) - 1 == 2 * (p - 1) + 1;
      Halve(p - 1, 1);
      AndLowMask(x / 2, w - 1, k - 1);
    }
  }

  /** OR with 2^k - 1 sets the low k bits. */
  lemma {:induction false} OrLowMask(x: nat, w: nat, k: nat)
    requires k <= w && x < Pow2(w)
    ensures Or(x, Pow2(k) - 1, w) == x - Low(x, k) + Pow2(k) - 1
  {
    if k == 0 {
      OrZero(x, w);
    } else {
      var p := Pow2(k - 1);
      assert Pow2(k) - 1 == 2 * (p - 1) + 1;
      Halve(p - 1, 1);
      assert Pow2(w) == 2 * Pow2(w - 1);
      assert Or(x, Pow2(k) - 1, w) == 2 * Or(x / 2, p - 1, w - 1) + 1;
      assert Low(x, k) == 2 * Low(x / 2, k - 1) + x % 2;
      OrLowMask(x / 2, w - 1, k - 1);
      LowBound(x / 2, k - 1);
      assert x == 2 * (x / 2) + x % 2;
    }
  }

  /** Masking twice with the same mask is masking once. */
  lemma {:induction false} AndIdempotent(a: nat, b: nat, w: nat)
    ensures And(And(a, b, w), b, w) == And(a, b, w)
  {
    if w > 0 {
      var c := if a % 2 == 1 && b % 2 == 1 then 1 else 0;
      Halve(And(a / 2, b / 2, w - 1), c);
      AndIdempotent(a / 2, b / 2, w - 1);
    }
  }

  /** Of two high masks, the AND is the one with fewer bits set. */
  lemma {:induction false} AndHighMasks(w: nat, k1: nat, k2: nat)
    requires k2 <= k1 <= w
    ensures And(HighMask(w, k1), HighMask(w, k2), w) == HighMask(w, k1)
  {
    if w > 0 {
      var k1', e1 := if k1 == 0 then 0 else k1 - 1, if k1 == 0 then 1 else 0;
      var k2', e2 := if k2 == 0 then 0 else k2 - 1, if k2 == 0 then 1 else 0;
      var h1, h2 := HighMask(w - 1, k1'), HighMask(w - 1, k2');
      assert HighMask(w, k1) == 2 * h1 + e1 && HighMask(w, k2) == 2 * h2 + e2;
      Halve(h1, e1);
      Halve(h2, e2);
      AndHighMasks(w - 1, k1', k2');
    }
  }

  /** `(a & b) >>> 0` on two unsigned 32-bit values is their bitwise AND. */
  lemma BitAndUint32(a: nat, b: nat)
    requires a < TwoTo32 && b < TwoTo32
    ensures ToUint32(BitAnd(a, b)) == And(a, b, 32)
  {
    AndBound(a, b, 32);
    Pow2Constants();
  }

  /** `(a | b) >>> 0` on two unsigned 32-bit values is their bitwise OR. */
  lemma BitOrUint32(a: nat, b: nat)
    requires a < TwoTo32 && b < TwoTo32
    ensures ToUint32(BitOr(a, b)) == Or(a, b, 32)
  {
    OrBound(a, b, 32);
    Pow2Constants();
  }
}
