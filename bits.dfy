/**
 * Exact arithmetic on unbounded non-negative integers, the way Python's `int`
 * behaves: powers of two, the exact bit length, and the bitwise operators
 * `&`, `|`, `^` with their bit-by-bit meaning.
 */
module Bits {

  /** 2^k, the value of `1 << k`. */
  function Pow2(k: nat): (p: nat)
    ensures p >= 1
  {
    if k == 0 then 1 else 2 * Pow2(k - 1)
  }

  lemma {:induction false} Pow2Add(a: nat, b: nat)
    ensures Pow2(a + b) == Pow2(a) * Pow2(b)
  {
    if a > 0 {
      Pow2Add(a - 1, b);
      assert Pow2(a + b) == 2 * Pow2(a - 1 + b);
    }
  }

  lemma {:induction false} Pow2Strict(a: nat, b: nat)
    requires a < b
    ensures Pow2(a) < Pow2(b)
  {
    if b > a + 1 {
      Pow2Strict(a, b - 1);
    }
  }

  lemma Pow2Monotone(a: nat, b: nat)
    requires a <= b
    ensures Pow2(a) <= Pow2(b)
  {
    if a < b {
      Pow2Strict(a, b);
    }
  }

  /**
   * The number of binary digits of a positive integer. The source derives it
   * from a floating-point `log2`; this is the exact value.
   */
  function BitsNumber(x: nat): (b: nat)
    requires x > 0
    ensures b >= 1 && Pow2(b - 1) <= x < Pow2(b)
  {
    if x == 1 then 1 else 1 + BitsNumber(x / 2)
  }

  /** A positive value needs more than w bits exactly when it is at least 2^w. */
  lemma BitsNumberExceeds(x: nat, w: nat)
    requires x > 0
    ensures BitsNumber(x) > w <==> x >= Pow2(w)
  {
    var b := BitsNumber(x);
    if b > w {
      Pow2Monotone(w, b - 1);
    } else {
      Pow2Monotone(b, w);
    }
  }

  // ---------------------------------------------------------------------
  // Division and remainder by positive divisors

  lemma {:induction false} MulLe(a: int, b: int, c: nat)
    requires a <= b
    ensures a * c <= b * c
  {
    if c > 0 {
      MulLe(a, b, c - 1);
      assert a * c == a * (c - 1) + a;
      assert b * c == b * (c - 1) + b;
    }
  }

  lemma {:induction false} DivBounds(x: nat, d: nat)
    requires d > 0
    ensures 0 <= x / d <= x
  {
    var q := x / d;
    assert x == q * d + x % d;
    if q < 0 {
      MulLe(q, -1, d);
    } else if q > x {
      MulLe(x + 1, q, d);
      MulLe(1, d, x + 1);
    }
  }

  lemma DivModUnique(x: int, c: int, q: int, m: int)
    requires c > 0 && 0 <= m < c && x == q * c + m
    ensures x / c == q && x % c == m
  {
    var q', m' := x / c, x % c;
    assert x == q' * c + m';
    if q' > q {
      MulLe(q + 1, q', c);
    } else if q' < q {
      MulLe(q' + 1, q, c);
    }
  }

  lemma DivModAddMultiple(x: nat, y: nat, c: nat)
    requires c > 0
    ensures (x + y * c) / c == x / c + y && (x + y * c) % c == x % c
  {
    DivModUnique(x + y * c, c, x / c + y, x % c);
  }

  lemma DivDiv(x: nat, a: nat, b: nat)
    requires a > 0 && b > 0
    ensures x / a / b == x / (a * b)
  {
    DivBounds(x, a);
    var q := x / a / b;
    var m := x % a + a * (x / a % b);
    assert x / a == q * b + x / a % b;
    assert x == (q * b + x / a % b) * a + x % a;
    assert x == q * (a * b) + m;
    assert m < a * b by {
      assert x / a % b <= b - 1;
      MulLe(x / a % b, b - 1, a);
    }
    DivModUnique(x, a * b, q, m);
  }

  /** Remainder by a product: the low part modulo a, plus the next digit. */
  lemma ModMul(x: nat, a: nat, b: nat)
    requires a > 0 && b > 0
    ensures x % (a * b) == x % a + a * (x / a % b)
  {
    DivBounds(x, a);
    var q := x / a / b;
    var m := x % a + a * (x / a % b);
    assert x / a == q * b + x / a % b;
    assert x == (q * b + x / a % b) * a + x % a;
    assert x == q * (a * b) + m;
    assert m < a * b by {
      assert x / a % b <= b - 1;
      MulLe(x / a % b, b - 1, a);
    }
    DivModUnique(x, a * b, q, m);
  }

  /** `x >> k` */
  function Shr(x: nat, k: nat): (y: nat)
    ensures y <= x
  {
    DivBounds(x, Pow2(k));
    x / Pow2(k)
  }

  /** `x << k` */
  function Shl(x: nat, k: nat): nat
  {
    x * Pow2(k)
  }

  lemma ShrShr(x: nat, a: nat, b: nat)
    ensures Shr(Shr(x, a), b) == Shr(x, a + b)
  {
    Pow2Add(a, b);
    DivDiv(x, Pow2(a), Pow2(b));
  }

  lemma ModOfSmall(x: nat, d: nat)
    requires x < d
    ensures x % d == x
  {
    DivModUnique(x, d, 0, x);
  }

  /** A value below d * m, divided by d, is below m. */
  lemma DivBelow(x: nat, d: nat, m: nat)
    requires d > 0 && x < m * d
    ensures x / d < m
  {
    var q := x / d;
    assert x == q * d + x % d;
    if q >= m {
      MulLe(m, q, d);
    }
  }

  /** A value of a + b bits, shifted right by a, fits in b bits. */
  lemma ShrBelow(x: nat, a: nat, b: nat)
    requires x < Pow2(a + b)
    ensures Shr(x, a) < Pow2(b)
  {
    assert Pow2(a + b) == Pow2(b) * Pow2(a) by { Pow2Add(a, b); }
    DivBelow(x, Pow2(a), Pow2(b));
  }

  /** Splitting a value at bit position k and joining the parts gives it back. */
  lemma SplitJoin(lo: nat, hi: nat, k: nat)
    requires lo < Pow2(k)
    ensures Shr(lo + hi * Pow2(k), k) == hi
    ensures (lo + hi * Pow2(k)) % Pow2(k) == lo
  {
    DivModUnique(lo + hi * Pow2(k), Pow2(k), hi, lo);
  }

  // ---------------------------------------------------------------------
  // Bits and the bitwise operators on naturals

  /** Bit i of x, that is `(x >> i) & 1`. */
  function Bit(x: nat, i: nat): (b: nat)
    ensures b < 2
  {
    if i == 0 then x % 2 else Bit(x / 2, i - 1)
  }

  /** `a & b` on non-negative integers, lowest bit first. */
  function And(a: nat, b: nat): nat
    decreases a + b
  {
    if a == 0 || b == 0 then 0
    else 2 * And(a / 2, b / 2) + (if a % 2 == 1 && b % 2 == 1 then 1 else 0)
  }

  /** `a | b` on non-negative integers, lowest bit first. */
  function Or(a: nat, b: nat): nat
    decreases a + b
  {
    if a == 0 then b
    else if b == 0 then a
    else 2 * Or(a / 2, b / 2) + (if a % 2 == 1 || b % 2 == 1 then 1 else 0)
  }

  /** `a ^ b` on non-negative integers, lowest bit first. */
  function Xor(a: nat, b: nat): nat
    decreases a + b
  {
    if a == 0 then b
    else if b == 0 then a
    else 2 * Xor(a / 2, b / 2) + (if a % 2 != b % 2 then 1 else 0)
  }

  // The three operators split off the lowest bit in every case,
  // including when an operand is zero.

  lemma AndStep(a: nat, b: nat)
    ensures And(a, b) == 2 * And(a / 2, b / 2) + (if a % 2 == 1 && b % 2 == 1 then 1 else 0)
  {
  }

  lemma OrStep(a: nat, b: nat)
    ensures Or(a, b) == 2 * Or(a / 2, b / 2) + (if a % 2 == 1 || b % 2 == 1 then 1 else 0)
  {
    if a == 0 {
      assert Or(a / 2, b / 2) == b / 2;
    } else if b == 0 {
      assert Or(a / 2, b / 2) == a / 2;
    }
  }

  lemma XorStep(a: nat, b: nat)
    ensures Xor(a, b) == 2 * Xor(a / 2, b / 2) + (if a % 2 != b % 2 then 1 else 0)
  {
    if a == 0 {
      assert Xor(a / 2, b / 2) == b / 2;
    } else if b == 0 {
      assert Xor(a / 2, b / 2) == a / 2;
    }
  }

  /** The bits of 2q + e: e at position 0, the bits of q above it. */
  lemma BitOfStep(q: nat, e: nat, i: nat)
    requires e < 2
    ensures Bit(2 * q + e, i) == if i == 0 then e else Bit(q, i - 1)
  {
    DivModUnique(2 * q + e, 2, q, e);
  }

  lemma {:induction false} BitAnd(a: nat, b: nat, i: nat)
    ensures Bit(And(a, b), i) == Bit(a, i) * Bit(b, i)
  {
    AndStep(a, b);
    BitOfStep(And(a / 2, b / 2), if a % 2 == 1 && b % 2 == 1 then 1 else 0, i);
    if i > 0 {
      BitAnd(a / 2, b / 2, i - 1);
    }
  }

  lemma {:induction false} BitOr(a: nat, b: nat, i: nat)
    ensures Bit(Or(a, b), i) == if Bit(a, i) == 1 || Bit(b, i) == 1 then 1 else 0
  {
    OrStep(a, b);
    BitOfStep(Or(a / 2, b / 2), if a % 2 == 1 || b % 2 == 1 then 1 else 0, i);
    if i > 0 {
      BitOr(a / 2, b / 2, i - 1);
    }
  }

  lemma {:induction false} BitXor(a: nat, b: nat, i: nat)
    ensures Bit(Xor(a, b), i) == if Bit(a, i) != Bit(b, i) then 1 else 0
  {
    XorStep(a, b);
    BitOfStep(Xor(a / 2, b / 2), if a % 2 != b % 2 then 1 else 0, i);
    if i > 0 {
      BitXor(a / 2, b / 2, i - 1);
    }
  }

  /** Two naturals with the same bits are equal. */
  lemma {:induction false} BitsEqual(a: nat, b: nat)
    requires forall i: nat :: Bit(a, i) == Bit(b, i)
    ensures a == b
    decreases a + b
  {
    assert Bit(a, 0) == Bit(b, 0);
    if a + b > 0 {
      forall i: nat ensures Bit(a / 2, i) == Bit(b / 2, i) {
        assert Bit(a, i + 1) == Bit(b, i + 1);
      }
      BitsEqual(a / 2, b / 2);
    }
  }

  /** The single bit of 2^k. */
  lemma {:induction false} BitPow2(k: nat, i: nat)
    ensures Bit(Pow2(k), i) == if i == k then 1 else 0
  {
    if k > 0 && i > 0 {
      BitPow2(k - 1, i - 1);
    } else if k > 0 {
      assert Pow2(k) == 2 * Pow2(k - 1);
    } else if i > 0 {
      assert Pow2(k) / 2 == 0;
      BitOfZero(i - 1);
    }
  }

  lemma {:induction false} BitOfZero(i: nat)
    ensures Bit(0, i) == 0
  {
    if i > 0 {
      BitOfZero(i - 1);
    }
  }

  /** The bits of 2^k - 1 are the k lowest ones. */
  lemma {:induction false} BitLowMask(k: nat, i: nat)
    ensures Bit(Pow2(k) - 1, i) == if i < k then 1 else 0
  {
    if k == 0 {
      BitOfZero(i);
    } else {
      assert (Pow2(k) - 1) / 2 == Pow2(k - 1) - 1;
      if i > 0 {
        BitLowMask(k - 1, i - 1);
      }
    }
  }

  /** Masking with 2^k - 1 keeps the remainder modulo 2^k (`x & ((1 << k) - 1)`). */
  lemma {:induction false} AndLowMask(x: nat, k: nat)
    ensures And(x, Pow2(k) - 1) == x % Pow2(k)
    ensures And(Pow2(k) - 1, x) == x % Pow2(k)
  {
    if k > 0 {
      AndLowMask(x / 2, k - 1);
      LowMaskStep(x, k);
    }
  }

  /** The step of AndLowMask: the mask's lowest bit keeps x % 2, its other k - 1 bits mask x / 2. */
  lemma LowMaskStep(x: nat, k: nat)
    requires k > 0
    requires And(x / 2, Pow2(k - 1) - 1) == x / 2 % Pow2(k - 1)
    requires And(Pow2(k - 1) - 1, x / 2) == x / 2 % Pow2(k - 1)
    ensures And(x, Pow2(k) - 1) == x % Pow2(k) && And(Pow2(k) - 1, x) == x % Pow2(k)
  {
    var p := Pow2(k - 1);
    var low := x / 2 % p;
    assert Pow2(k) == 2 * p;
    assert x % Pow2(k) == x % 2 + 2 * low by { ModMul(x, 2, p); }
    OddLowMask(x, p, low, Pow2(k) - 1);
  }

  lemma OddLowMask(x: nat, p: nat, low: nat, mask: nat)
    requires p >= 1 && mask == 2 * (p - 1) + 1
    requires And(x / 2, p - 1) == low && And(p - 1, x / 2) == low
    ensures And(x, mask) == 2 * low + x % 2 && And(mask, x) == 2 * low + x % 2
  {
    AndOddMask(x, p - 1);
  }

  /** Masking with an odd mask keeps the lowest bit and masks the rest with the mask's upper bits. */
  lemma AndOddMask(x: nat, q: nat)
    ensures And(x, 2 * q + 1) == 2 * And(x / 2, q) + x % 2
    ensures And(2 * q + 1, x) == 2 * And(q, x / 2) + x % 2
  {
    AndStep(x, 2 * q + 1);
    AndStep(2 * q + 1, x);
  }

  /** Masking with a mask shifted left by s: `(m << s) & x == (m & (x >> s)) << s`. */
  lemma {:induction false} AndShiftedMask(m: nat, x: nat, s: nat)
    ensures And(m * Pow2(s), x) == And(m, Shr(x, s)) * Pow2(s)
  {
    if s > 0 {
      var p := Pow2(s - 1);
      assert Pow2(s) == 2 * p;
      var a := And(m, Shr(x, s));
      assert m * Pow2(s) == 2 * (m * p) by { Twice(m, p); }
      assert And(m * Pow2(s), x) == 2 * And(m * p, x / 2) by { AndEven(m * p, x); }
      assert Shr(x / 2, s - 1) == Shr(x, s) by { DivDiv(x, 2, p); }
      assert And(m * p, x / 2) == a * p by { AndShiftedMask(m, x / 2, s - 1); }
      assert a * Pow2(s) == 2 * (a * p) by { Twice(a, p); }
    }
  }

  lemma AndEven(y: nat, x: nat)
    ensures And(2 * y, x) == 2 * And(y, x / 2)
  {
    AndStep(2 * y, x);
  }

  lemma Twice(a: nat, p: nat)
    ensures a * (2 * p) == 2 * (a * p)
  {
  }

  /**
   * Or-ing a value that fits below bit k with a multiple of 2^k is addition:
   * the two operands share no bit.
   */
  lemma {:induction false} OrDisjoint(lo: nat, hi: nat, k: nat)
    requires lo < Pow2(k)
    ensures Or(lo, hi * Pow2(k)) == lo + hi * Pow2(k)
  {
    if k > 0 {
      var z := hi * Pow2(k - 1);
      assert hi * Pow2(k) == 2 * z;
      OrStep(lo, 2 * z);
      OrDisjoint(lo / 2, hi, k - 1);
    } else {
      assert lo == 0;
    }
  }

  lemma {:induction false} OrBelow(a: nat, b: nat, k: nat)
    requires a < Pow2(k) && b < Pow2(k)
    ensures Or(a, b) < Pow2(k)
  {
    if k > 0 {
      OrStep(a, b);
      OrBelow(a / 2, b / 2, k - 1);
    }
  }

  /** Or-ing in more bits never makes a value smaller. */
  lemma {:induction false} OrAtLeast(a: nat, b: nat)
    ensures Or(a, b) >= a
    decreases a + b
  {
    if a != 0 && b != 0 {
      OrAtLeast(a / 2, b / 2);
    }
  }

  lemma {:induction false} XorBelow(a: nat, b: nat, k: nat)
    requires a < Pow2(k) && b < Pow2(k)
    ensures Xor(a, b) < Pow2(k)
  {
    if k > 0 {
      XorStep(a, b);
      XorBelow(a / 2, b / 2, k - 1);
    }
  }

  /** A value below 2^k has no bit set at position k or above. */
  lemma {:induction false} BitAbove(x: nat, k: nat, i: nat)
    requires x < Pow2(k) && k <= i
    ensures Bit(x, i) == 0
  {
    if k == 0 {
      BitOfZero(i);
    } else {
      BitAbove(x / 2, k - 1, i - 1);
    }
  }
}
